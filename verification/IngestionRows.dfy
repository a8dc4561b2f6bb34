/** The rows that a download job writes: a flush is an `upsert_captures` of the pending files. */
module IngestionRows {
  import opened Captures
  import opened Ingestion
  import opened IngestionBooks
  import Paths
  import CaptureStore

  /** What `register_local` reads from the file system, and the id that is generated for the row. */
  datatype Found = Found(mtime: int, details: Details, uuid: string)

  /** The record that `register_local` appends. */
  function RecordAt(path: string, found: Found): Incoming {
    Incoming(path, Paths.Name(path), found.mtime, "", path, path, found.details, found.uuid)
  }

  function Batch(paths: seq<string>, founds: seq<Found>): seq<Incoming>
    requires |paths| == |founds|
  {
    seq(|paths|, i requires 0 <= i < |paths| => RecordAt(paths[i], founds[i]))
  }

  /** Local paths are absolute. */
  ghost predicate Absolute(paths: seq<string>) {
    forall p :: p in paths ==> PathLike(p) && p != ""
  }

  ghost predicate FreshIds(table: Table, founds: seq<Found>) {
    && (forall i, j :: 0 <= i < j < |founds| ==> founds[i].uuid != founds[j].uuid)
    && (forall f :: f in founds ==> f.uuid !in table)
  }

  /** Flushing pending files writes a row for each of them, and the step system's set of rows stays the table's. */
  lemma FlushIsAnUpsert(env: Env, known: map<string, string>, table: Table, books: Books, founds: seq<Found>)
    requires WellKeyed(table) && UniqueDestinations(table) && Destinations(table) == books.rows
    requires |founds| == |books.pending| && FreshIds(table, founds) && Absolute(books.pending) && IngestionBooks.NoDuplicates(books.pending)
    requires KnownFor(table, known, Wanted(Batch(books.pending, founds)))
    ensures var after := Upsert(env, known, table, Batch(books.pending, founds));
            && WellKeyed(after) && UniqueDestinations(after)
            && Destinations(after) == Flushed(books).rows
  {
    var batch := Batch(books.pending, founds);
    WantedAre(books.pending, founds);
    forall c | c in batch ensures c.destPath != "" && PathLike(c.id) && c.uuid !in table {
      var i :| 0 <= i < |batch| && batch[i] == c;
      assert books.pending[i] in books.pending && founds[i] in founds;
    }
    CaptureStore.RegisteringAddsDestinations(env, known, table, batch);
    UpsertKeepsInvariants(env, known, table, batch);
    var after := Upsert(env, known, table, batch);
    assert Destinations(after) == Destinations(table) + Set(books.pending);
    assert Flushed(books).rows == books.rows + Set(books.pending);
  }

  lemma WantedAre(paths: seq<string>, founds: seq<Found>)
    requires |founds| == |paths| && Absolute(paths)
    ensures Wanted(Batch(paths, founds)) == Set(paths)
  {
    var batch := Batch(paths, founds);
    forall p | p in Set(paths) ensures p in Wanted(batch) {
      var i :| 0 <= i < |paths| && paths[i] == p;
      assert batch[i] in batch && batch[i].destPath == p;
    }
  }

  /** The row of a new file: a new id, its name, time and path, and the date in its name if there is one. */
  predicate IsRowOf(env: Env, r: Row, path: string, found: Found) {
    && r.id == found.uuid && r.filename == Paths.Name(path) && r.mtime == found.mtime
    && r.sourcePath == path && r.destPath == path && r.details == found.details && !r.favourite
    && r.captureDate == env.filenameDate(Paths.Name(path))
  }

  /** None of the paths has a row yet, and each is listed once. */
  ghost predicate NewPaths(table: Table, paths: seq<string>) {
    && Absolute(paths) && IngestionBooks.NoDuplicates(paths)
    && forall p :: p in paths ==> p !in Destinations(table)
  }

  lemma NewPathsStayApart(table: Table, known: map<string, string>, paths: seq<string>, founds: seq<Found>)
    requires |founds| == |paths| && NewPaths(table, paths) && FreshIds(table, founds)
    requires KnownFor(table, known, Wanted(Batch(paths, founds)))
    ensures Apart(known, Batch(paths, founds))
    ensures forall i :: 0 <= i < |paths| ==> ResolvedId(known, RecordAt(paths[i], founds[i])) == founds[i].uuid
  {
    forall i | 0 <= i < |paths|
      ensures paths[i] != "" && ResolvedId(known, RecordAt(paths[i], founds[i])) == founds[i].uuid
    {
      assert paths[i] in paths;
    }
  }

  /** Flushing new files stores each of them in a row of its own. */
  lemma NewFilesGetRows(env: Env, known: map<string, string>, table: Table, paths: seq<string>, founds: seq<Found>, i: nat)
    requires |founds| == |paths| && NewPaths(table, paths) && FreshIds(table, founds) && i < |paths|
    requires KnownFor(table, known, Wanted(Batch(paths, founds)))
    ensures var after := Upsert(env, known, table, Batch(paths, founds));
            founds[i].uuid in after && IsRowOf(env, after[founds[i].uuid], paths[i], founds[i])
  {
    NewPathsStayApart(table, known, paths, founds);
    var batch := Batch(paths, founds);
    assert batch[i] in batch && founds[i] in founds;
    UpsertOfApart(env, known, table, batch);
    DateInName(env, Paths.Name(paths[i]));
  }

  lemma DateInName(env: Env, name: string)
    ensures CaptureDate(env, name, "") == env.filenameDate(name)
  {
    if env.filenameDate(name).Some? {
      CaptureStore.FilenameDateWins(env, name, "");
    }
  }
}
