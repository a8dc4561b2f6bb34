/** From the files a scan or a retry lists to the job that downloads them. */
module IngestionSetup {
  import opened Text
  import opened Remote
  import opened Ingestion
  import LocalNames
  import IngestionFiles
  import IngestionRuns
  import opened Transfer

  /** The job for a list of files: each goes to its local name in the destination folder. */
  function JobFor(files: seq<RemoteFile>, hash: LocalNames.Hash, dest: string, batchSize: nat): Job {
    var names := LocalNames.Names(files, hash, |files|);
    Job(files, seq(|files|, i requires 0 <= i < |files| => dest + "/" + names[i]), batchSize)
  }

  lemma PathsAreInTheFolder(files: seq<RemoteFile>, hash: LocalNames.Hash, dest: string, batchSize: nat)
    ensures var job := JobFor(files, hash, dest, batchSize);
            && job.files == files && |job.paths| == |files| && job.batchSize == batchSize
            && forall i :: 0 <= i < |files| ==> job.paths[i] == dest + "/" + LocalNames.Names(files, hash, |files|)[i]
  {
  }

  /** The values of the dictionary `by_href`, in the order of any listing of its keys. */
  function Listed(byHref: map<string, RemoteFile>, order: seq<string>): seq<RemoteFile>
    requires forall h :: h in order ==> h in byHref
  {
    seq(|order|, i requires 0 <= i < |order| => byHref[order[i]])
  }

  /** A scan yields a lawful job: it keeps one file per href. */
  lemma ScanMakesLawfulJob(
    byHref: map<string, RemoteFile>, order: seq<string>, hash: LocalNames.Hash, dest: string, batchSize: nat)
    requires forall h :: h in order ==> h in byHref && byHref[h].href == h
    requires (forall i, j :: 0 <= i < j < |order| ==> order[i] != order[j]) && batchSize > 0
    ensures Lawful(JobFor(Listed(byHref, order), hash, dest, batchSize))
  {
    var files := Listed(byHref, order);
    forall i, j | 0 <= i < j < |files| ensures files[i].href != files[j].href {
      assert order[i] in order && order[j] in order;
    }
  }

  /** So does every retry of a lawful job, from whatever state it is retried. */
  lemma RetryMakesLawfulJob(
    job: Job, disks: Disks, rows: set<string>, steps: seq<Step>, hash: LocalNames.Hash, dest: string, batchSize: nat)
    requires Lawful(job) && Possible(job, Start(job, disks, rows), steps) && batchSize > 0
    ensures var items := After(job, Start(job, disks, rows), steps).record.failedFiles;
            Lawful(JobFor(IngestionRuns.Remotes(items), hash, dest, batchSize))
  {
    IngestionRuns.RetryListIsLawful(job, disks, rows, steps);
  }

  /** With distinct hashes, local paths that differ only in case come from a clash of names and from nothing else. */
  lemma PathsApartIffNoClash(files: seq<RemoteFile>, hash: LocalNames.Hash, dest: string, batchSize: nat)
    requires LocalNames.Hex8(hash) && LocalNames.DistinctHashes(files, hash)
    requires forall r :: r in files ==> LocalNames.PhotoName(r.name)
    ensures LocalNames.ApartUpToCase(JobFor(files, hash, dest, batchSize).paths) <==> !LocalNames.Clash(files, hash)
    ensures !LocalNames.Clash(files, hash) ==> IngestionFiles.DistinctPaths(JobFor(files, hash, dest, batchSize))
  {
    var names := LocalNames.Names(files, hash, |files|);
    var paths := JobFor(files, hash, dest, batchSize).paths;
    LocalNames.LocalNamesApartIffNoClash(files, hash);
    forall i, j | 0 <= i < j < |files| ensures Fold(paths[i]) == Fold(paths[j]) <==> Fold(names[i]) == Fold(names[j]) {
      SameFolderSameName(dest, names[i], names[j]);
    }
    assert LocalNames.ApartUpToCase(paths) <==> LocalNames.ApartUpToCase(names) by {
      ApartTogether(paths, names);
    }
  }

  lemma ApartTogether(s: seq<string>, t: seq<string>)
    requires |s| == |t|
    requires forall i, j :: 0 <= i < j < |s| ==> (Fold(s[i]) == Fold(s[j]) <==> Fold(t[i]) == Fold(t[j]))
    ensures LocalNames.ApartUpToCase(s) <==> LocalNames.ApartUpToCase(t)
  {
  }

  lemma SameFolderSameName(dest: string, a: string, b: string)
    ensures Fold(dest + "/" + a) == Fold(dest + "/" + b) <==> Fold(a) == Fold(b)
  {
    FoldConcat(dest + "/", a);
    FoldConcat(dest + "/", b);
    var prefix := Fold(dest + "/");
    if prefix + Fold(a) == prefix + Fold(b) {
      assert Fold(a) == (prefix + Fold(a))[|prefix|..];
      assert Fold(b) == (prefix + Fold(b))[|prefix|..];
    }
  }

  /** A run of a job that ends without an exception and without a failure. */
  ghost predicate Succeeds(job: Job, disks: Disks, rows: set<string>, steps: seq<Step>) {
    && Lawful(job) && Possible(job, Start(job, disks, rows), steps)
    && var s := After(job, Start(job, disks, rows), steps);
       s.pc == Ended(None) && s.record.failed == 0
  }

  /** The server is honest, sizes are not understated, and parts on the disk are prefixes of what they are parts of. */
  ghost predicate Favourable(job: Job, at: IngestionFiles.Contents, disks: Disks, rows: set<string>, steps: seq<Step>) {
    && IngestionFiles.SizesNotUnderstated(job, at) && IngestionFiles.PartsArePrefixes(disks, at)
    && Possible(job, Start(job, disks, rows), steps) && IngestionFiles.HonestSteps(job, at, Start(job, disks, rows), steps)
  }

  /** What already lies at a local path with the listed size is the photo. */
  ghost predicate PresentAreExact(job: Job, at: IngestionFiles.Contents, disks: Disks)
    requires |job.paths| == |job.files|
  {
    forall i :: 0 <= i < |job.files| && Complete(job.files[i].size, DiskAt(disks, job.paths[i])) ==>
      DiskAt(disks, job.paths[i]).local == Some(at(job.paths[i]))
  }

  ghost predicate AllExact(job: Job, at: IngestionFiles.Contents, disks: Disks) {
    forall p :: p in job.paths ==> DiskAt(disks, p).local == Some(at(p))
  }

  lemma {:induction false} PresentStays(job: Job, s: State, steps: seq<Step>, i: nat)
    requires |job.paths| == |job.files| == |s.workers| && Possible(job, s, steps) && i < |s.workers| && s.workers[i].Present?
    ensures After(job, s, steps).workers[i].Present?
    decreases |steps|
  {
    if steps != [] {
      PresentStays(job, Do(job, s, steps[0]), steps[1..], i);
    }
  }

  lemma EveryPhotoArrivesIff(job: Job, at: IngestionFiles.Contents, disks: Disks, rows: set<string>, steps: seq<Step>)
    requires Succeeds(job, disks, rows, steps) && Favourable(job, at, disks, rows, steps) && IngestionFiles.DistinctPaths(job)
    ensures var s := After(job, Start(job, disks, rows), steps);
            && (forall p :: p in job.paths ==> p in s.books.rows)
            && (AllExact(job, at, s.disks) <==> PresentAreExact(job, at, disks))
  {
    IngestionRuns.EveryPhotoArrives(job, at, disks, rows, steps);
    var s := After(job, Start(job, disks, rows), steps);
    forall i | 0 <= i < |job.files|
      ensures DiskAt(s.disks, job.paths[i]).local == Some(at(job.paths[i])) <==>
              (Complete(job.files[i].size, DiskAt(disks, job.paths[i])) ==> DiskAt(disks, job.paths[i]).local == Some(at(job.paths[i])))
    {
      PhotoArrivesIff(job, at, disks, rows, steps, i);
    }
    forall p | p in job.paths ensures p in s.books.rows {
      var i :| 0 <= i < |job.paths| && job.paths[i] == p;
      assert job.paths[i] in s.books.rows;
    }
    AllExactByIndex(job, at, s.disks);
  }

  lemma AllExactByIndex(job: Job, at: IngestionFiles.Contents, disks: Disks)
    ensures AllExact(job, at, disks) <==>
            forall i :: 0 <= i < |job.paths| ==> DiskAt(disks, job.paths[i]).local == Some(at(job.paths[i]))
  {
    forall i | 0 <= i < |job.paths| ensures job.paths[i] in job.paths {
    }
  }

  lemma PhotoArrivesIff(job: Job, at: IngestionFiles.Contents, disks: Disks, rows: set<string>, steps: seq<Step>, i: nat)
    requires Succeeds(job, disks, rows, steps) && Favourable(job, at, disks, rows, steps) && IngestionFiles.DistinctPaths(job)
    requires i < |job.files|
    ensures var s := After(job, Start(job, disks, rows), steps);
            DiskAt(s.disks, job.paths[i]).local == Some(at(job.paths[i])) <==>
            (Complete(job.files[i].size, DiskAt(disks, job.paths[i])) ==> DiskAt(disks, job.paths[i]).local == Some(at(job.paths[i])))
  {
    IngestionRuns.EveryPhotoArrives(job, at, disks, rows, steps);
    IngestionFiles.StartFits(job, at, disks, rows);
    IngestionFiles.RunFits(job, at, disks, Start(job, disks, rows), steps);
    var s := After(job, Start(job, disks, rows), steps);
    assert IngestionFiles.FileFits(at(job.paths[i]), job.files[i].size, DiskAt(disks, job.paths[i]).local,
                                   DiskAt(s.disks, job.paths[i]), s.workers[i]);
    if Complete(job.files[i].size, DiskAt(disks, job.paths[i])) {
      PresentStays(job, Start(job, disks, rows), steps, i);
    }
  }

  /**
   The whole way: a listing with distinct hashes, photo names and no clash, and an honest server. When a job ends
   without an exception and without a failure, every photo has a row, and every local file is the photo, byte for byte,
   if and only if the files that already lay there with the listed size were.
   */
  lemma EveryListedPhotoArrives(
    files: seq<RemoteFile>, hash: LocalNames.Hash, dest: string, batchSize: nat, at: IngestionFiles.Contents,
    disks: Disks, rows: set<string>, steps: seq<Step>)
    requires LocalNames.Hex8(hash) && LocalNames.DistinctHashes(files, hash) && !LocalNames.Clash(files, hash)
    requires forall r :: r in files ==> LocalNames.PhotoName(r.name)
    requires Succeeds(JobFor(files, hash, dest, batchSize), disks, rows, steps)
    requires Favourable(JobFor(files, hash, dest, batchSize), at, disks, rows, steps)
    ensures var job := JobFor(files, hash, dest, batchSize);
            var s := After(job, Start(job, disks, rows), steps);
            && (forall p :: p in job.paths ==> p in s.books.rows)
            && (AllExact(job, at, s.disks) <==> PresentAreExact(job, at, disks))
  {
    PathsApartIffNoClash(files, hash, dest, batchSize);
    EveryPhotoArrivesIff(JobFor(files, hash, dest, batchSize), at, disks, rows, steps);
  }
}
