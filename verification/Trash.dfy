/** The trash: photos move to a trash folder and are recorded, move back, or are destroyed. */
module Trash {
  import Paths

  datatype FilePath = FilePath(dir: string, name: string)
  type Content = string
  type FileMap = map<FilePath, Content>

  datatype Entry = Entry(original: FilePath, trashPath: FilePath, filename: string)

  /** The files of the libraries and the trash table, by entry id. */
  datatype State = State(files: FileMap, table: map<string, Entry>)

  /**
   The folder layout: the trash folder for a photo (`_trash_directory_for`), which folders are trash folders, and
   the folder that older versions used.
   */
  datatype Layout = Layout(trashDir: FilePath -> string, isTrash: string -> bool, legacyDir: string)

  ghost predicate Proper(l: Layout) {
    l.isTrash(l.legacyDir) && forall p: FilePath :: l.isTrash(l.trashDir(p))
  }

  /** Whether the file operation of a request raises, or the database operation after it. */
  datatype Fault = NoFault | FileFault | TableFault

  /** One request for one photo; `inode` and `id` are what the file system and `uuid4` supply. */
  datatype Op =
    | Delete(path: FilePath, inode: string, id: string, fault: Fault)
    | Restore(entry: string, fault: Fault)
    | Purge(entry: string, fault: Fault)
    | Migrate(entry: string, fault: Fault)

  function WithSuffix(p: FilePath, tag: string): FilePath {
    FilePath(p.dir, Paths.Stem(p.name) + "_" + tag + Paths.Suffix(p.name))
  }

  /** The path itself if it is free, otherwise the name with a tag, which is not checked again. */
  function FreeOr(files: FileMap, p: FilePath, tag: string): FilePath {
    if p in files then WithSuffix(p, tag) else p
  }

  /** `shutil.move`: replaces whatever the target holds. */
  function Move(files: FileMap, from: FilePath, to: FilePath): FileMap
    requires from in files
  {
    (files - {from})[to := files[from]]
  }

  function DeleteTarget(l: Layout, files: FileMap, path: FilePath, inode: string): FilePath {
    FreeOr(files, FilePath(l.trashDir(path), path.name), inode)
  }

  function RestoreTarget(files: FileMap, e: Entry): FilePath {
    FreeOr(files, e.original, "restored")
  }

  function MigrateTarget(l: Layout, files: FileMap, id: string, e: Entry): FilePath {
    FreeOr(files, FilePath(l.trashDir(e.original), e.trashPath.name), id)
  }

  predicate Migrates(l: Layout, s: State, id: string) {
    id in s.table && s.table[id].trashPath in s.files && s.table[id].trashPath.dir == l.legacyDir
  }

  /** A trash file that is gone while its original is there again: `get_trash` copies it. */
  predicate Recovers(s: State, id: string) {
    id in s.table && s.table[id].trashPath !in s.files && s.table[id].original in s.files
  }

  function RecoverTarget(l: Layout, files: FileMap, id: string, e: Entry): FilePath {
    FreeOr(files, FilePath(l.trashDir(e.original), e.filename), id)
  }

  function Do(l: Layout, s: State, op: Op): State {
    match op
    case Delete(path, inode, id, fault) =>
      if path !in s.files || fault.FileFault? then s
      else
        var target := DeleteTarget(l, s.files, path, inode);
        State(Move(s.files, path, target), if fault.TableFault? then s.table else s.table[id := Entry(path, target, path.name)])
    case Restore(id, fault) =>
      if id !in s.table then s
      else if s.table[id].trashPath !in s.files then s.(table := s.table - {id})
      else if fault.FileFault? then s
      else
        State(Move(s.files, s.table[id].trashPath, RestoreTarget(s.files, s.table[id])),
              if fault.TableFault? then s.table else s.table - {id})
    case Purge(id, fault) =>
      if id !in s.table || (fault.FileFault? && s.table[id].trashPath in s.files) then s
      else State(s.files - {s.table[id].trashPath}, if fault.TableFault? then s.table else s.table - {id})
    case Migrate(id, fault) =>
      if fault.FileFault? then s
      else if Migrates(l, s, id) then
        var target := MigrateTarget(l, s.files, id, s.table[id]);
        State(Move(s.files, s.table[id].trashPath, target),
              if fault.TableFault? then s.table else s.table[id := s.table[id].(trashPath := target)])
      else if Recovers(s, id) then
        var e := s.table[id];
        var target := RecoverTarget(l, s.files, id, e);
        State(s.files[target := s.files[e.original]],
              if fault.TableFault? then s.table else s.table[id := e.(trashPath := target)])
      else s
  }

  function DoAll(l: Layout, s: State, ops: seq<Op>): State {
    if ops == [] then s else Do(l, DoAll(l, s, ops[..|ops| - 1]), ops[|ops| - 1])
  }

  /** The operation has something to work on. */
  predicate Applies(l: Layout, s: State, op: Op) {
    match op
    case Delete(path, _, _, _) => path in s.files
    case Restore(id, _) => id in s.table && s.table[id].trashPath in s.files
    case Purge(id, _) => id in s.table
    case Migrate(id, _) => Migrates(l, s, id) || Recovers(s, id)
  }

  /** It raises: a file that is gone is not unlinked, so that cannot fail. */
  predicate Fails(l: Layout, s: State, op: Op) {
    match op
    case Delete(_, _, _, fault) => Applies(l, s, op) && !fault.NoFault?
    case Restore(id, fault) => id in s.table && (s.table[id].trashPath !in s.files || !fault.NoFault?)
    case Purge(id, fault) => id in s.table && (fault.TableFault? || (fault.FileFault? && s.table[id].trashPath in s.files))
    case Migrate(_, fault) => Applies(l, s, op) && !fault.NoFault?
  }

  /** It succeeds, and is counted. */
  predicate Succeeds(l: Layout, s: State, op: Op) {
    Applies(l, s, op) && !Fails(l, s, op)
  }

  /** The file operation is done and the database operation is not. */
  predicate HalfDone(l: Layout, s: State, op: Op) {
    match op
    case Delete(path, _, _, fault) => path in s.files && fault.TableFault?
    case Restore(id, fault) => id in s.table && s.table[id].trashPath in s.files && fault.TableFault?
    case Purge(id, fault) => id in s.table && s.table[id].trashPath in s.files && fault.TableFault?
    case Migrate(_, fault) => Applies(l, s, op) && fault.TableFault?
  }

  /** How many operations of a run meet `p` when their turn comes. */
  function HowMany(l: Layout, s: State, ops: seq<Op>, p: (Layout, State, Op) -> bool): nat {
    if ops == [] then 0
    else
      var init := ops[..|ops| - 1];
      HowMany(l, s, init, p) + if p(l, DoAll(l, s, init), ops[|ops| - 1]) then 1 else 0
  }

  predicate FailsAt(l: Layout, s: State, ops: seq<Op>, k: nat)
    requires k < |ops|
  {
    Fails(l, DoAll(l, s, ops[..k]), ops[k])
  }

  predicate NoneFails(l: Layout, s: State, ops: seq<Op>, n: nat)
    requires n <= |ops|
  {
    forall k :: 0 <= k < n ==> !FailsAt(l, s, ops, k)
  }

  lemma NoneFailsNext(l: Layout, s: State, ops: seq<Op>, k: nat)
    requires k < |ops|
    ensures NoneFails(l, s, ops, k + 1) <==> NoneFails(l, s, ops, k) && !FailsAt(l, s, ops, k)
  {
  }

  // ---- The endpoints ----

  class TrashBin {
    const layout: Layout
    var files: FileMap
    var table: map<string, Entry>

    constructor (layout: Layout, files: FileMap)
      ensures this.layout == layout && View() == State(files, map[])
    {
      this.layout, this.files, this.table := layout, files, map[];
    }

    function View(): State
      reads this
    {
      State(files, table)
    }

    /** The delete branch of `bulk_action`. */
    method BulkDelete(paths: seq<FilePath>, inode: FilePath -> string, ids: seq<string>, faults: seq<Fault>)
      returns (moved: nat, errors: nat)
      requires |ids| == |paths| == |faults|
      modifies this
      ensures View() == DoAll(layout, old(View()), Deletes(paths, inode, ids, faults))
      ensures moved == HowMany(layout, old(View()), Deletes(paths, inode, ids, faults), Succeeds)
      ensures errors == HowMany(layout, old(View()), Deletes(paths, inode, ids, faults), Fails)
    {
      moved, errors := 0, 0;
      ghost var ops := Deletes(paths, inode, ids, faults);
      for k := 0 to |paths|
        invariant View() == DoAll(layout, old(View()), ops[..k])
        invariant moved == HowMany(layout, old(View()), ops[..k], Succeeds)
        invariant errors == HowMany(layout, old(View()), ops[..k], Fails)
      {
        assert ops[..k + 1][..k] == ops[..k];
        var src := paths[k];
        if src !in files {
          continue;
        }
        var dest := FilePath(layout.trashDir(src), src.name);
        if dest in files {
          dest := WithSuffix(dest, inode(src));
        }
        if faults[k].FileFault? {
          errors := errors + 1;
          continue;
        }
        files := Move(files, src, dest);
        if faults[k].TableFault? {
          errors := errors + 1;
          continue;
        }
        table := table[ids[k] := Entry(src, dest, src.name)];
        moved := moved + 1;
      }
      assert ops[..|paths|] == ops;
    }

    method RestoreFromTrash(ids: seq<string>, faults: seq<Fault>) returns (restored: nat, errors: seq<string>)
      requires |faults| == |ids|
      modifies this
      ensures View() == DoAll(layout, old(View()), Restores(ids, faults))
      ensures restored == HowMany(layout, old(View()), Restores(ids, faults), Succeeds)
      ensures |errors| == HowMany(layout, old(View()), Restores(ids, faults), Fails)
    {
      restored, errors := 0, [];
      ghost var ops := Restores(ids, faults);
      for k := 0 to |ids|
        invariant View() == DoAll(layout, old(View()), ops[..k])
        invariant restored == HowMany(layout, old(View()), ops[..k], Succeeds)
        invariant |errors| == HowMany(layout, old(View()), ops[..k], Fails)
      {
        assert ops[..k + 1][..k] == ops[..k];
        if ids[k] !in table {
          continue;
        }
        var entry := table[ids[k]];
        if entry.trashPath !in files {
          table := table - {ids[k]};
          errors := errors + [entry.filename + ": file missing from trash"];
          continue;
        }
        var dest := entry.original;
        if dest in files {
          dest := WithSuffix(dest, "restored");
        }
        if faults[k].FileFault? {
          errors := errors + [entry.filename];
          continue;
        }
        files := Move(files, entry.trashPath, dest);
        if faults[k].TableFault? {
          errors := errors + [entry.filename];
          continue;
        }
        table := table - {ids[k]};
        restored := restored + 1;
      }
      assert ops[..|ids|] == ops;
    }

    method PermanentlyDelete(ids: seq<string>, faults: seq<Fault>) returns (deleted: nat, errors: seq<string>)
      requires |faults| == |ids|
      modifies this
      ensures View() == DoAll(layout, old(View()), Purges(ids, faults))
      ensures deleted == HowMany(layout, old(View()), Purges(ids, faults), Succeeds)
      ensures |errors| == HowMany(layout, old(View()), Purges(ids, faults), Fails)
    {
      deleted, errors := 0, [];
      ghost var ops := Purges(ids, faults);
      for k := 0 to |ids|
        invariant View() == DoAll(layout, old(View()), ops[..k])
        invariant deleted == HowMany(layout, old(View()), ops[..k], Succeeds)
        invariant |errors| == HowMany(layout, old(View()), ops[..k], Fails)
      {
        assert ops[..k + 1][..k] == ops[..k];
        if ids[k] !in table {
          continue;
        }
        var entry := table[ids[k]];
        if entry.trashPath in files {
          if faults[k].FileFault? {
            errors := errors + [entry.filename];
            continue;
          }
          files := files - {entry.trashPath};
        } else {
          assert files - {entry.trashPath} == files;
        }
        if faults[k].TableFault? {
          errors := errors + [entry.filename];
          continue;
        }
        table := table - {ids[k]};
        deleted := deleted + 1;
      }
      assert ops[..|ids|] == ops;
    }

    /**
     The migration and recovery that `get_trash` performs on each entry, in the order of its listing. Nothing here
     catches an exception, so the first one ends the request.
     */
    method GetTrash(ids: seq<string>, faults: seq<Fault>) returns (handled: nat, raised: bool)
      requires |faults| == |ids| && forall id :: id in ids ==> id in table
      modifies this
      ensures handled <= |ids| && (raised ==> handled > 0) && (!raised ==> handled == |ids|)
      ensures View() == DoAll(layout, old(View()), Migrations(ids, faults)[..handled])
      ensures NoneFails(layout, old(View()), Migrations(ids, faults), if raised then handled - 1 else handled)
      ensures raised ==> FailsAt(layout, old(View()), Migrations(ids, faults), handled - 1)
    {
      ghost var ops := Migrations(ids, faults);
      raised := false;
      for k := 0 to |ids|
        invariant View() == DoAll(layout, old(View()), ops[..k])
        invariant table.Keys == old(table).Keys
        invariant NoneFails(layout, old(View()), ops, k)
      {
        assert ops[..k + 1][..k] == ops[..k];
        assert ids[k] in ids;
        raised := MigrateOne(ids[k], faults[k]);
        assert raised <==> FailsAt(layout, old(View()), ops, k);
        NoneFailsNext(layout, old(View()), ops, k);
        if raised {
          return k + 1, true;
        }
      }
      assert ops[..|ids|] == ops;
      handled := |ids|;
    }

    /** One round of that loop. */
    method MigrateOne(id: string, fault: Fault) returns (raised: bool)
      requires id in table
      modifies this
      ensures View() == Do(layout, old(View()), Migrate(id, fault))
      ensures raised <==> Fails(layout, old(View()), Migrate(id, fault))
      ensures table.Keys == old(table).Keys
    {
      var entry := table[id];
      if entry.trashPath in files && entry.trashPath.dir == layout.legacyDir {
        var destination := FilePath(layout.trashDir(entry.original), entry.trashPath.name);
        if destination in files {
          destination := WithSuffix(destination, id);
        }
        if fault.FileFault? {
          return true;
        }
        files := Move(files, entry.trashPath, destination);
        if fault.TableFault? {
          return true;
        }
        table := table[id := entry.(trashPath := destination)];
      } else if entry.trashPath !in files && entry.original in files {
        var destination := FilePath(layout.trashDir(entry.original), entry.filename);
        if destination in files {
          destination := WithSuffix(destination, id);
        }
        if fault.FileFault? {
          return true;
        }
        files := files[destination := files[entry.original]];
        if fault.TableFault? {
          return true;
        }
        table := table[id := entry.(trashPath := destination)];
      }
      raised := false;
    }
  }

  function Deletes(paths: seq<FilePath>, inode: FilePath -> string, ids: seq<string>, faults: seq<Fault>): (ops: seq<Op>)
    requires |ids| == |paths| == |faults|
    ensures |ops| == |paths|
  {
    seq(|paths|, i requires 0 <= i < |paths| => Delete(paths[i], inode(paths[i]), ids[i], faults[i]))
  }

  function Restores(ids: seq<string>, faults: seq<Fault>): seq<Op>
    requires |ids| == |faults|
  {
    seq(|ids|, i requires 0 <= i < |ids| => Restore(ids[i], faults[i]))
  }

  function Purges(ids: seq<string>, faults: seq<Fault>): seq<Op>
    requires |ids| == |faults|
  {
    seq(|ids|, i requires 0 <= i < |ids| => Purge(ids[i], faults[i]))
  }

  function Migrations(ids: seq<string>, faults: seq<Fault>): (ops: seq<Op>)
    requires |ids| == |faults|
    ensures |ops| == |ids|
  {
    seq(|ids|, i requires 0 <= i < |ids| => Migrate(ids[i], faults[i]))
  }

  // ---- Contents ----

  function Holders(files: FileMap, c: Content): set<FilePath> {
    set p | p in files && files[p] == c
  }

  /** How many files hold the content `c`. */
  function Count(files: FileMap, c: Content): nat {
    |Holders(files, c)|
  }

  lemma CountWithout(files: FileMap, p: FilePath, c: Content)
    requires p in files
    ensures Count(files, c) == Count(files - {p}, c) + if files[p] == c then 1 else 0
  {
    if files[p] == c {
      assert Holders(files, c) == Holders(files - {p}, c) + {p};
    } else {
      assert Holders(files, c) == Holders(files - {p}, c);
    }
  }

  lemma CountMoved(files: FileMap, from: FilePath, to: FilePath, c: Content)
    requires from in files && from != to
    ensures Count(Move(files, from, to), c) == Count(files, c) - if to in files && files[to] == c then 1 else 0
  {
    var moved := Move(files, from, to);
    CountWithout(files, from, c);
    CountWithout(moved, to, c);
    var rest := files - {from};
    assert moved - {to} == rest - {to};
    if to in files {
      CountWithout(rest, to, c);
    } else {
      assert rest - {to} == rest;
    }
  }

  /** Moving a file keeps all contents if and only if it does not replace another file. */
  lemma MoveKeepsContents(files: FileMap, from: FilePath, to: FilePath)
    requires from in files && from != to
    ensures (forall c :: Count(Move(files, from, to), c) == Count(files, c)) <==> to !in files
  {
    forall c ensures Count(Move(files, from, to), c) == Count(files, c) - if to in files && files[to] == c then 1 else 0 {
      CountMoved(files, from, to, c);
    }
    if to in files {
      assert Count(Move(files, from, to), files[to]) != Count(files, files[to]);
    }
  }

  /** Deleting a photo keeps all contents exactly when its trash name or the fallback name is free. */
  lemma DeleteKeepsContents(l: Layout, s: State, path: FilePath, inode: string, id: string, fault: Fault)
    requires Proper(l) && path in s.files && !l.isTrash(path.dir) && !fault.FileFault?
    ensures (forall c :: Count(Do(l, s, Delete(path, inode, id, fault)).files, c) == Count(s.files, c)) <==>
            var name := FilePath(l.trashDir(path), path.name);
            name !in s.files || WithSuffix(name, inode) !in s.files
  {
    MoveKeepsContents(s.files, path, DeleteTarget(l, s.files, path, inode));
  }

  /** Restoring a photo keeps all contents exactly when its old place or the fallback name is free. */
  lemma RestoreKeepsContents(l: Layout, s: State, id: string, fault: Fault)
    requires OneToOne(l, s) && id in s.table && !fault.FileFault?
    ensures (forall c :: Count(Do(l, s, Restore(id, fault)).files, c) == Count(s.files, c)) <==>
            s.table[id].original !in s.files || WithSuffix(s.table[id].original, "restored") !in s.files
  {
    MoveKeepsContents(s.files, s.table[id].trashPath, RestoreTarget(s.files, s.table[id]));
  }

  // ---- The invariant ----

  /** Every entry has its own file in a trash folder, and every file in a trash folder has an entry. */
  ghost predicate OneToOne(l: Layout, s: State) {
    && (forall id :: id in s.table ==> s.table[id].trashPath in s.files && l.isTrash(s.table[id].trashPath.dir))
    && (forall id :: id in s.table ==> !l.isTrash(s.table[id].original.dir))
    && (forall i, j :: i in s.table && j in s.table && i != j ==> s.table[i].trashPath != s.table[j].trashPath)
    && (forall p :: p in s.files && l.isTrash(p.dir) ==> HasEntry(s, p))
  }

  /** A file in a trash folder that no entry records. */
  ghost predicate Orphan(l: Layout, s: State, p: FilePath) {
    p in s.files && l.isTrash(p.dir) && !HasEntry(s, p)
  }

  ghost predicate HasEntry(s: State, p: FilePath) {
    exists id :: id in s.table && s.table[id].trashPath == p
  }

  /** The requests that the promise is about: library photos, fresh ids, and fallback names that are free. */
  ghost predicate Regular(l: Layout, s: State, op: Op) {
    match op
    case Delete(path, inode, id, _) =>
      !l.isTrash(path.dir) && id !in s.table && DeleteTarget(l, s.files, path, inode) !in s.files
    case Restore(id, _) => id in s.table ==> RestoreTarget(s.files, s.table[id]) !in s.files
    case Purge(_, _) => true
    case Migrate(id, _) => Migrates(l, s, id) ==> MigrateTarget(l, s.files, id, s.table[id]) !in s.files
  }

  /** A run of such requests, none of which is left half done. */
  ghost predicate RegularRun(l: Layout, s: State, ops: seq<Op>) {
    ops != [] ==>
      var before, op := DoAll(l, s, ops[..|ops| - 1]), ops[|ops| - 1];
      RegularRun(l, s, ops[..|ops| - 1]) && Regular(l, before, op) && !HalfDone(l, before, op)
  }

  /** A file `from` that is moved to a free place `to` in a trash folder, and whose entry is `id` from then on. */
  ghost predicate MovesIn(l: Layout, s: State, t: State, from: FilePath, to: FilePath, id: string) {
    && from in s.files && to !in s.files && l.isTrash(to.dir) && t.files == Move(s.files, from, to)
    && t.table.Keys == s.table.Keys + {id} && t.table[id].trashPath == to && !l.isTrash(t.table[id].original.dir)
    && (forall i :: i in s.table && i != id ==> t.table[i] == s.table[i] && s.table[i].trashPath != from)
    && (id in s.table ==> s.table[id].trashPath == from)
  }

  lemma MovedInKeepsOneToOne(l: Layout, s: State, t: State, from: FilePath, to: FilePath, id: string)
    requires OneToOne(l, s) && MovesIn(l, s, t, from, to, id)
    ensures OneToOne(l, t)
  {
    MovedInIsInTrash(l, s, t, from, to, id);
    MovedInStaysApart(l, s, t, from, to, id);
    forall p | p in t.files && l.isTrash(p.dir) ensures HasEntry(t, p) {
      MovedInHasEntry(l, s, t, from, to, id, p);
    }
  }

  lemma MovedInIsInTrash(l: Layout, s: State, t: State, from: FilePath, to: FilePath, id: string)
    requires OneToOne(l, s) && MovesIn(l, s, t, from, to, id)
    ensures forall i :: i in t.table ==>
              t.table[i].trashPath in t.files && l.isTrash(t.table[i].trashPath.dir) && !l.isTrash(t.table[i].original.dir)
  {
    assert id in t.table;
    forall i | i in t.table
      ensures t.table[i].trashPath in t.files && l.isTrash(t.table[i].trashPath.dir) && !l.isTrash(t.table[i].original.dir)
    {
      assert i != id ==> i in s.table;
    }
  }

  lemma MovedInStaysApart(l: Layout, s: State, t: State, from: FilePath, to: FilePath, id: string)
    requires OneToOne(l, s) && MovesIn(l, s, t, from, to, id)
    ensures Apart(t.table)
  {
    forall i | i in t.table && i != id ensures t.table[i].trashPath != to {
      assert i in s.table && s.table[i].trashPath in s.files;
    }
    forall i, j | i in t.table && j in t.table && i != j && i != id && j != id
      ensures t.table[i].trashPath != t.table[j].trashPath
    {
      assert i in s.table && j in s.table;
    }
  }

  lemma MovedInHasEntry(l: Layout, s: State, t: State, from: FilePath, to: FilePath, id: string, p: FilePath)
    requires OneToOne(l, s) && MovesIn(l, s, t, from, to, id) && p in t.files && l.isTrash(p.dir)
    ensures HasEntry(t, p)
  {
    assert id in t.table;
    if p != to {
      assert p in s.files && p != from && HasEntry(s, p);
      var i :| i in s.table && s.table[i].trashPath == p;
      assert i != id && i in t.table && t.table[i].trashPath == p;
    }
  }

  /** A file that leaves a trash folder, or is destroyed there, together with its entry. */
  lemma RemovedKeepsOneToOne(l: Layout, s: State, t: State, id: string)
    requires OneToOne(l, s) && id in s.table && t.table == s.table - {id}
    requires forall p :: p in t.files && l.isTrash(p.dir) <==> p in s.files && l.isTrash(p.dir) && p != s.table[id].trashPath
    ensures OneToOne(l, t)
  {
    forall i | i in t.table ensures t.table[i].trashPath in t.files && l.isTrash(t.table[i].trashPath.dir) {
      assert s.table[i].trashPath != s.table[id].trashPath;
    }
    forall p | p in t.files && l.isTrash(p.dir) ensures HasEntry(t, p) {
      assert HasEntry(s, p);
      var i :| i in s.table && s.table[i].trashPath == p;
      assert i in t.table && t.table[i].trashPath == p;
    }
  }

  lemma DoneKeepsOneToOne(l: Layout, s: State, op: Op)
    requires Proper(l) && OneToOne(l, s) && Regular(l, s, op) && !HalfDone(l, s, op)
    ensures OneToOne(l, Do(l, s, op))
  {
    match op
    case Delete(path, inode, id, fault) => DeleteKeepsOneToOne(l, s, op);
    case Restore(id, fault) => RemovalKeepsOneToOne(l, s, op);
    case Purge(id, fault) => RemovalKeepsOneToOne(l, s, op);
    case Migrate(id, fault) => MigrateKeepsOneToOne(l, s, op);
  }

  lemma DeleteKeepsOneToOne(l: Layout, s: State, op: Op)
    requires op.Delete? && Proper(l) && OneToOne(l, s) && Regular(l, s, op) && !HalfDone(l, s, op)
    ensures OneToOne(l, Do(l, s, op))
  {
    if op.path in s.files && op.fault.NoFault? {
      MovedInKeepsOneToOne(l, s, Do(l, s, op), op.path, DeleteTarget(l, s.files, op.path, op.inode), op.id);
    }
  }

  lemma RemovalKeepsOneToOne(l: Layout, s: State, op: Op)
    requires (op.Restore? || op.Purge?) && Proper(l) && OneToOne(l, s) && Regular(l, s, op) && !HalfDone(l, s, op)
    ensures OneToOne(l, Do(l, s, op))
  {
    if op.entry in s.table && op.fault.NoFault? {
      RemovedKeepsOneToOne(l, s, Do(l, s, op), op.entry);
    }
  }

  lemma MigrateKeepsOneToOne(l: Layout, s: State, op: Op)
    requires op.Migrate? && Proper(l) && OneToOne(l, s) && Regular(l, s, op) && !HalfDone(l, s, op)
    ensures OneToOne(l, Do(l, s, op))
  {
    var id := op.entry;
    if Migrates(l, s, id) && op.fault.NoFault? {
      MovedInKeepsOneToOne(l, s, Do(l, s, op), s.table[id].trashPath, MigrateTarget(l, s.files, id, s.table[id]), id);
    }
  }

  /** Such a request keeps the correspondence if and only if it is not left half done. */
  lemma OpKeepsOneToOne(l: Layout, s: State, op: Op)
    requires Proper(l) && OneToOne(l, s) && Regular(l, s, op)
    ensures OneToOne(l, Do(l, s, op)) <==> !HalfDone(l, s, op)
  {
    if HalfDone(l, s, op) {
      HalfDoneIsNoticed(l, s, op);
    } else {
      DoneKeepsOneToOne(l, s, op);
    }
  }

  /**
   A half-done delete leaves a file without an entry, a half-done restore or purge an entry without its file, and a
   half-done migration both.
   */
  lemma HalfDoneIsNoticed(l: Layout, s: State, op: Op)
    requires Proper(l) && OneToOne(l, s) && Regular(l, s, op) && HalfDone(l, s, op)
    ensures var t := Do(l, s, op);
            && (op.Delete? ==> Orphan(l, t, DeleteTarget(l, s.files, op.path, op.inode)))
            && (op.Migrate? ==> Orphan(l, t, MigrateTarget(l, s.files, op.entry, s.table[op.entry])))
            && (!op.Delete? ==> op.entry in t.table && t.table[op.entry].trashPath !in t.files)
  {
  }

  /** Over any run of such requests, entries and trash files stay in one-to-one correspondence. */
  lemma {:induction false} RunsKeepOneToOne(l: Layout, s: State, ops: seq<Op>)
    requires Proper(l) && OneToOne(l, s) && RegularRun(l, s, ops)
    ensures OneToOne(l, DoAll(l, s, ops))
  {
    if ops != [] {
      RunsKeepOneToOne(l, s, ops[..|ops| - 1]);
      OpKeepsOneToOne(l, DoAll(l, s, ops[..|ops| - 1]), ops[|ops| - 1]);
    }
  }

  // ---- Where contents go, in any run ----

  /** What an operation does to the files. */
  datatype Effect = Nothing | Moves(from: FilePath, to: FilePath) | Copies(from: FilePath, to: FilePath) | Removes(path: FilePath)

  function EffectOf(l: Layout, s: State, op: Op): Effect {
    match op
    case Delete(path, inode, _, fault) =>
      if path in s.files && !fault.FileFault? then Moves(path, DeleteTarget(l, s.files, path, inode)) else Nothing
    case Restore(id, fault) =>
      if id in s.table && s.table[id].trashPath in s.files && !fault.FileFault?
      then Moves(s.table[id].trashPath, RestoreTarget(s.files, s.table[id])) else Nothing
    case Purge(id, fault) =>
      if id in s.table && s.table[id].trashPath in s.files && !fault.FileFault? then Removes(s.table[id].trashPath) else Nothing
    case Migrate(id, fault) =>
      if fault.FileFault? then Nothing
      else if Migrates(l, s, id) then Moves(s.table[id].trashPath, MigrateTarget(l, s.files, id, s.table[id]))
      else if Recovers(s, id) then Copies(s.table[id].original, RecoverTarget(l, s.files, id, s.table[id]))
      else Nothing
  }

  /** A permanent delete removes a file with content `c`. */
  function Destroyed(files: FileMap, e: Effect, c: Content): nat {
    if e.Removes? && e.path in files && files[e.path] == c then 1 else 0
  }

  /** A recovery makes a second file with content `c`. */
  function Copied(files: FileMap, e: Effect, c: Content): nat {
    if e.Copies? && e.from in files && e.from != e.to && files[e.from] == c then 1 else 0
  }

  /** A file with content `c` is replaced, because the fallback name was taken as well. */
  function Replaced(files: FileMap, e: Effect, c: Content): nat {
    if (e.Moves? || e.Copies?) && e.from != e.to && e.to in files && files[e.to] == c then 1 else 0
  }

  /** How often that happens over a run. */
  function Total(l: Layout, s: State, ops: seq<Op>, c: Content, measure: (FileMap, Effect, Content) -> nat): nat {
    if ops == [] then 0
    else
      var before := DoAll(l, s, ops[..|ops| - 1]);
      Total(l, s, ops[..|ops| - 1], c, measure) + measure(before.files, EffectOf(l, before, ops[|ops| - 1]), c)
  }

  lemma CountCopied(files: FileMap, from: FilePath, to: FilePath, c: Content)
    requires from in files && from != to
    ensures Count(files[to := files[from]], c) ==
            Count(files, c) + (if files[from] == c then 1 else 0) - if to in files && files[to] == c then 1 else 0
  {
    var after := files[to := files[from]];
    CountWithout(after, to, c);
    assert after - {to} == files - {to};
    if to in files {
      CountWithout(files, to, c);
    } else {
      assert files - {to} == files;
    }
  }

  /** Each request, failing or not, accounts for every content. */
  lemma OpAccountsForContents(l: Layout, s: State, op: Op, c: Content)
    ensures var e := EffectOf(l, s, op);
            Count(s.files, c) + Copied(s.files, e, c) ==
            Count(Do(l, s, op).files, c) + Destroyed(s.files, e, c) + Replaced(s.files, e, c)
  {
    match EffectOf(l, s, op)
    case Nothing => NothingKeepsFiles(l, s, op);
    case Moves(from, to) =>
      assert Do(l, s, op).files == Move(s.files, from, to);
      if from == to {
        assert Move(s.files, from, to) == s.files;
      } else {
        CountMoved(s.files, from, to, c);
      }
    case Copies(from, to) =>
      assert Do(l, s, op).files == s.files[to := s.files[from]];
      if from == to {
        assert s.files[to := s.files[from]] == s.files;
      } else {
        CountCopied(s.files, from, to, c);
      }
    case Removes(path) => CountWithout(s.files, path, c);
  }

  lemma NothingKeepsFiles(l: Layout, s: State, op: Op)
    requires EffectOf(l, s, op).Nothing?
    ensures Do(l, s, op).files == s.files
  {
    if op.Purge? && op.entry in s.table && s.table[op.entry].trashPath !in s.files {
      assert s.files - {s.table[op.entry].trashPath} == s.files;
    }
  }

  /** No request of the run puts a file where another one is. */
  ghost predicate NothingReplaced(l: Layout, s: State, ops: seq<Op>) {
    ops != [] ==>
      var before := DoAll(l, s, ops[..|ops| - 1]);
      var e := EffectOf(l, before, ops[|ops| - 1]);
      && NothingReplaced(l, s, ops[..|ops| - 1])
      && (e.Moves? || e.Copies? ==> e.to == e.from || e.to !in before.files)
  }

  /**
   In every run, whichever operations raise: what there was and what recoveries copied is what is left, what was
   permanently deleted and what was replaced.
   */
  lemma {:induction false} RunsAccountForContents(l: Layout, s: State, ops: seq<Op>, c: Content)
    ensures Count(s.files, c) + Total(l, s, ops, c, Copied) ==
            Count(DoAll(l, s, ops).files, c) + Total(l, s, ops, c, Destroyed) + Total(l, s, ops, c, Replaced)
  {
    if ops != [] {
      RunsAccountForContents(l, s, ops[..|ops| - 1], c);
      OpAccountsForContents(l, DoAll(l, s, ops[..|ops| - 1]), ops[|ops| - 1], c);
    }
  }

  lemma {:induction false} NothingReplacedCounts(l: Layout, s: State, ops: seq<Op>, c: Content)
    requires NothingReplaced(l, s, ops)
    ensures Total(l, s, ops, c, Replaced) == 0
  {
    if ops != [] {
      NothingReplacedCounts(l, s, ops[..|ops| - 1], c);
    }
  }

  lemma {:induction false} ReplacedIsSeen(l: Layout, s: State, ops: seq<Op>) returns (c: Content)
    requires !NothingReplaced(l, s, ops)
    ensures Total(l, s, ops, c, Replaced) > 0
  {
    var init, before := ops[..|ops| - 1], DoAll(l, s, ops[..|ops| - 1]);
    var e := EffectOf(l, before, ops[|ops| - 1]);
    if !NothingReplaced(l, s, init) {
      c := ReplacedIsSeen(l, s, init);
    } else {
      c := before.files[e.to];
      assert Replaced(before.files, e, c) == 1;
    }
  }

  /** Of the files with content `c`, none is missing but those that were permanently deleted. */
  predicate Conserved(l: Layout, s: State, ops: seq<Op>, c: Content) {
    Count(s.files, c) + Total(l, s, ops, c, Copied) == Count(DoAll(l, s, ops).files, c) + Total(l, s, ops, c, Destroyed)
  }

  /**
   So in every run nothing but permanent deletes removes a content, if and only if no fallback name was taken.
   */
  lemma OnlyDeletesDestroyIff(l: Layout, s: State, ops: seq<Op>)
    ensures (forall c :: Conserved(l, s, ops, c)) <==> NothingReplaced(l, s, ops)
  {
    if NothingReplaced(l, s, ops) {
      forall c ensures Conserved(l, s, ops, c) {
        RunsAccountForContents(l, s, ops, c);
        NothingReplacedCounts(l, s, ops, c);
      }
    } else {
      var c := ReplacedIsSeen(l, s, ops);
      RunsAccountForContents(l, s, ops, c);
      assert !Conserved(l, s, ops, c);
    }
  }

  // ---- Recovery ----

  /** The folder of older versions is no trash folder of today, and originals lie outside all of them. */
  ghost predicate Current(l: Layout, s: State) {
    && Proper(l) && (forall p: FilePath :: l.trashDir(p) != l.legacyDir)
    && forall id :: id in s.table ==> !l.isTrash(s.table[id].original.dir)
  }

  /** The entry has a file outside the old folder, or nothing to recover it from. */
  predicate Served(l: Layout, s: State, id: string) {
    id in s.table && ((s.table[id].trashPath in s.files && s.table[id].trashPath.dir != l.legacyDir) || s.table[id].original !in s.files)
  }

  lemma MigrateServes(l: Layout, s: State, id: string)
    requires Current(l, s) && id in s.table
    ensures Served(l, Do(l, s, Migrate(id, NoFault)), id) && Current(l, Do(l, s, Migrate(id, NoFault)))
  {
  }

  /** Migrating another entry takes no file away from it. */
  lemma MigrateKeepsServed(l: Layout, s: State, id: string, other: string)
    requires Current(l, s) && Served(l, s, id) && other in s.table
    ensures Served(l, Do(l, s, Migrate(other, NoFault)), id)
  {
  }

  /** One listing that does not raise gives a file again to every entry whose original exists, whatever was lost. */
  lemma {:induction false} ListingServesAll(l: Layout, s: State, ids: seq<string>)
    requires Current(l, s) && forall id :: id in ids ==> id in s.table
    ensures var t := DoAll(l, s, Migrations(ids, seq(|ids|, _ => NoFault)));
            && Current(l, t) && t.table.Keys == s.table.Keys
            && forall id :: id in ids ==> Served(l, t, id)
  {
    var ops := Migrations(ids, seq(|ids|, _ => NoFault));
    if ids != [] {
      var n := |ids| - 1;
      var init := ids[..n];
      assert ops[..n] == Migrations(init, seq(|init|, _ => NoFault));
      assert ids == init + [ids[n]];
      ListingServesAll(l, s, init);
      var before := DoAll(l, s, ops[..n]);
      MigrateServes(l, before, ids[n]);
      forall id | id in init ensures Served(l, Do(l, before, Migrate(ids[n], NoFault)), id) {
        MigrateKeepsServed(l, before, id, ids[n]);
      }
    }
  }

  ghost predicate Apart(table: map<string, Entry>) {
    forall i, j :: i in table && j in table && i != j ==> table[i].trashPath != table[j].trashPath
  }

  /** A recovery keeps entries apart if and only if no other entry records the path it chooses. */
  lemma RecoveryKeepsApartIff(l: Layout, s: State, id: string)
    requires Apart(s.table) && !Migrates(l, s, id) && Recovers(s, id)
    ensures Apart(Do(l, s, Migrate(id, NoFault)).table) <==>
            forall j :: j in s.table && j != id ==> s.table[j].trashPath != RecoverTarget(l, s.files, id, s.table[id])
  {
    var t := Do(l, s, Migrate(id, NoFault));
    if j :| j in s.table && j != id && s.table[j].trashPath == RecoverTarget(l, s.files, id, s.table[id]) {
      assert t.table[j].trashPath == t.table[id].trashPath;
    }
  }

  /**
   It is not checked: two entries for photos of the same path, both without their files, end up with one file when
   the later of the two is listed first.
   */
  lemma RecoveredFileIsShared(c: Content)
    ensures var l := Layout(_ => "/photos/.trash", dir => dir == "/photos/.trash" || dir == "/.trash", "/.trash");
            var original := FilePath("/photos", "a.jpg");
            var first := Entry(original, FilePath("/photos/.trash", "a.jpg"), "a.jpg");
            var second := Entry(original, FilePath("/photos/.trash", "a_7.jpg"), "a.jpg");
            var s := State(map[original := c], map["1" := first, "2" := second]);
            var t := DoAll(l, s, Migrations(["2", "1"], [NoFault, NoFault]));
            && Current(l, s) && Apart(s.table) && "1" in t.table && "2" in t.table && t.table["1"].trashPath == t.table["2"].trashPath
  {
    var l := Layout(_ => "/photos/.trash", dir => dir == "/photos/.trash" || dir == "/.trash", "/.trash");
    var original := FilePath("/photos", "a.jpg");
    var first := Entry(original, FilePath("/photos/.trash", "a.jpg"), "a.jpg");
    var second := Entry(original, FilePath("/photos/.trash", "a_7.jpg"), "a.jpg");
    var s := State(map[original := c], map["1" := first, "2" := second]);
    var ops := Migrations(["2", "1"], [NoFault, NoFault]);
    assert ops == [Migrate("2", NoFault), Migrate("1", NoFault)];
    assert ops[..1] == [ops[0]] && ops[..1][..0] == [];
    var u := Do(l, s, ops[0]);
    assert DoAll(l, s, ops[..1]) == u by {
      assert DoAll(l, s, ops[..1][..0]) == s;
    }
    assert first.trashPath.name != second.trashPath.name;
    assert u.table["2"].trashPath == first.trashPath && first.trashPath in u.files;
    assert Do(l, u, ops[1]) == u;
  }

  /** Deleting a photo and restoring it, with nothing put in its place, gives back the same files and entries. */
  lemma RestoreUndoesDelete(l: Layout, s: State, path: FilePath, inode: string, id: string)
    requires Proper(l) && path in s.files && Regular(l, s, Delete(path, inode, id, NoFault))
    ensures DoAll(l, s, [Delete(path, inode, id, NoFault), Restore(id, NoFault)]) == s
  {
    var ops := [Delete(path, inode, id, NoFault), Restore(id, NoFault)];
    assert ops[..1] == [ops[0]] && ops[..1][..0] == [];
    var t := Do(l, s, ops[0]);
    assert DoAll(l, s, ops[..1]) == t by {
      assert DoAll(l, s, ops[..1][..0]) == s;
    }
    assert path !in t.files;
    assert Do(l, t, Restore(id, NoFault)).files == s.files;
    assert Do(l, t, Restore(id, NoFault)).table == s.table;
  }

  /** If another photo has taken the path meanwhile, both survive the restore, the restored one as `stem_restored`. */
  lemma RestoreBesideANewPhoto(l: Layout, s: State, id: string, dir: string, stem: string, suffix: string)
    requires OneToOne(l, s) && id in s.table && s.table[id].original == FilePath(dir, stem + suffix)
    requires stem != "" && |suffix| >= 2 && suffix[0] == '.' && '.' !in suffix[1..]
    requires FilePath(dir, stem + suffix) in s.files && FilePath(dir, stem + "_restored" + suffix) !in s.files
    ensures var t := Do(l, s, Restore(id, NoFault));
            var photo, restored := FilePath(dir, stem + suffix), FilePath(dir, stem + "_restored" + suffix);
            && photo in t.files && t.files[photo] == s.files[photo]
            && restored in t.files && t.files[restored] == s.files[s.table[id].trashPath]
  {
    Paths.SplitIsRecovered(stem, suffix);
    assert stem + "_" + "restored" + suffix == stem + "_restored" + suffix;
  }

  // ---- What a shared file costs ----

  /** Two entries that have files in a trash folder, and come from outside. */
  ghost predicate BothServed(l: Layout, s: State, i: string, j: string) {
    && i in s.table && j in s.table && i != j
    && s.table[i].trashPath in s.files && s.table[j].trashPath in s.files
    && l.isTrash(s.table[i].trashPath.dir) && l.isTrash(s.table[j].trashPath.dir) && !l.isTrash(s.table[i].original.dir)
  }

  /** Restoring or purging one entry leaves the other its file if and only if they do not share it. */
  lemma OtherKeepsItsFileIff(l: Layout, s: State, i: string, j: string, op: Op)
    requires BothServed(l, s, i, j) && (op == Restore(i, NoFault) || op == Purge(i, NoFault))
    ensures var t := Do(l, s, op);
            && j in t.table && t.table[j] == s.table[j]
            && (s.table[j].trashPath in t.files <==> s.table[i].trashPath != s.table[j].trashPath)
            && (s.table[j].trashPath in t.files ==> t.files[s.table[j].trashPath] == s.files[s.table[j].trashPath])
  {
  }

  /** When they do, the second restore finds nothing and drops the entry, so one of two photos never comes back. */
  lemma SecondRestoreFindsNothing(l: Layout, s: State, i: string, j: string)
    requires BothServed(l, s, i, j) && s.table[i].trashPath == s.table[j].trashPath
    ensures var once := Do(l, s, Restore(i, NoFault));
            Fails(l, once, Restore(j, NoFault)) && Do(l, once, Restore(j, NoFault)) == State(once.files, s.table - {i} - {j})
  {
    OtherKeepsItsFileIff(l, s, i, j, Restore(i, NoFault));
  }
}
