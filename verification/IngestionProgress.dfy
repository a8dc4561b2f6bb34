/** What the record of a download job shows while it runs, and how much of a job is saved at any time. */
module IngestionProgress {
  import opened Text
  import opened Remote
  import opened Transfer
  import opened Ingestion
  import opened IngestionCounts
  import IngestionBooks
  import IngestionFiles
  import IngestionRuns

  // ---- Progress ----

  /** A running transfer is shown with as many bytes as its part file has. */
  predicate ShownTruly(active: map<string, Item>, href: string, disk: Disk) {
    href in active && active[href].transferred == Length(disk.part) && active[href].resumedFrom <= active[href].transferred
  }

  ghost predicate Progress(job: Job, s: State)
    requires |job.files| == |job.paths| == |s.workers|
  {
    forall i :: 0 <= i < |s.workers| && s.workers[i].Streaming? ==>
      ShownTruly(s.record.active, job.files[i].href, DiskAt(s.disks, job.paths[i]))
  }

  lemma OpenShowsResume(r: Record, remote: RemoteFile, head: Head, disk: Disk)
    requires remote.href in r.active && Open(remote.size, head, disk).Receiving?
    ensures var o := Open(remote.size, head, disk);
            ShownTruly(OnOpen(r, remote, disk, o).active, remote.href, o.disk)
  {
  }

  lemma ChunkAddsUp(r: Record, href: string, disk: Disk, chunk: Bytes)
    requires ShownTruly(r.active, href, disk)
    ensures ShownTruly(OnChunk(r, href, |chunk|).active, href, Append(disk, chunk))
  {
  }

  /** A step of one transfer does not touch what the record shows of another. */
  lemma OthersAreShown(job: Job, s: State, step: Step, i: nat)
    requires |job.files| == |job.paths| == |s.workers| && DistinctHrefs(job.files) && IngestionFiles.DistinctPaths(job)
    requires Enabled(job, s, step) && (step.Begin? || step.Connect? || step.Chunk? || step.EndBody? || step.Collect?)
    requires i < |s.workers| && i != step.i && ShownTruly(s.record.active, job.files[i].href, DiskAt(s.disks, job.paths[i]))
    ensures var t := Do(job, s, step);
            ShownTruly(t.record.active, job.files[i].href, DiskAt(t.disks, job.paths[i]))
  {
    var href, other := job.files[i].href, job.files[step.i];
    assert href != other.href && job.paths[i] != job.paths[step.i];
    match step
    case Begin(_) =>
    case Connect(k, head) =>
      var disk := DiskAt(s.disks, job.paths[k]);
      OpenKeepsOthers(s.record, other, disk, Open(other.size, head, disk), href);
    case Chunk(_, chunk) => ProgressKeepsOthers(s.record, other.href, href);
    case _ =>
  }

  lemma ProgressKeepsOthers(r: Record, other: string, href: string)
    requires href != other && href in r.active
    ensures forall n: nat, from: nat ::
      href in WithProgress(r, other, n, from).active && WithProgress(r, other, n, from).active[href] == r.active[href]
  {
  }

  lemma OpenKeepsOthers(r: Record, other: RemoteFile, disk: Disk, o: Opened, href: string)
    requires href != other.href && href in r.active
    ensures href in OnOpen(r, other, disk, o).active && OnOpen(r, other, disk, o).active[href] == r.active[href]
  {
    ProgressKeepsOthers(r, other.href, href);
  }

  lemma StepShows(job: Job, s: State, step: Step)
    requires Counts(job, s) && |job.paths| == |job.files| && IngestionFiles.DistinctPaths(job)
    requires Progress(job, s) && Enabled(job, s, step) && !s.pc.Ended? && (step.Advance? ==> !s.pc.Closing?)
    ensures Progress(job, Do(job, s, step))
  {
    var t := Do(job, s, step);
    forall i | 0 <= i < |t.workers| && t.workers[i].Streaming?
      ensures ShownTruly(t.record.active, job.files[i].href, DiskAt(t.disks, job.paths[i]))
    {
      match step
      case Register(_) =>
      case Flush(_) =>
      case Advance =>
      case Connect(k, head) =>
        if i == k {
          OpenShowsResume(s.record, job.files[i], head, DiskAt(s.disks, job.paths[i]));
        } else {
          OthersAreShown(job, s, step, i);
        }
      case Chunk(k, chunk) =>
        if i == k {
          ChunkAddsUp(s.record, job.files[i].href, DiskAt(s.disks, job.paths[i]), chunk);
        } else {
          OthersAreShown(job, s, step, i);
        }
      case _ => OthersAreShown(job, s, step, i);
    }
  }

  lemma NothingStreamsAtTheEnd(job: Job, s: State)
    requires IngestionBooks.Control(s) && (s.pc.Closing? || s.pc.Ended?)
    ensures forall i :: 0 <= i < |s.workers| ==> !s.workers[i].Streaming?
  {
    forall i | 0 <= i < |s.workers| ensures !s.workers[i].Streaming? {
      assert s.workers[i] in s.workers;
    }
  }

  lemma {:induction false} StepsShow(job: Job, s: State, steps: seq<Step>, rows: set<string>)
    requires IngestionRuns.Kept(job, s, rows) && IngestionFiles.DistinctPaths(job) && Progress(job, s) && Possible(job, s, steps)
    ensures Progress(job, After(job, s, steps))
    decreases |steps|
  {
    if steps != [] {
      IngestionRuns.NothingAfterTheEnd(job, s, steps[0]);
      IngestionRuns.StepKeeps(job, s, steps[0], rows);
      if steps[0].Advance? && s.pc.Closing? {
        NothingStreamsAtTheEnd(job, Do(job, s, steps[0]));
      } else {
        StepShows(job, s, steps[0]);
      }
      StepsShow(job, Do(job, s, steps[0]), steps[1..], rows);
    }
  }

  /** In every state of every interleaving the progress shown for a running transfer is the length of its part file. */
  lemma ProgressIsTrue(job: Job, disks: Disks, rows: set<string>, steps: seq<Step>, i: nat)
    requires Lawful(job) && IngestionFiles.DistinctPaths(job) && Possible(job, Start(job, disks, rows), steps)
    requires i < |job.files| && After(job, Start(job, disks, rows), steps).workers[i].Streaming?
    ensures var s := After(job, Start(job, disks, rows), steps);
            job.files[i].href in s.record.active
            && s.record.active[job.files[i].href].transferred == Length(DiskAt(s.disks, job.paths[i]).part)
  {
    IngestionRuns.RunKeeps(job, disks, rows, []);
    assert Possible(job, Start(job, disks, rows), []);
    StepsShow(job, Start(job, disks, rows), steps, rows);
  }

  /** A transfer that begins is shown with nothing received, and leaves the queue. */
  lemma BeginIsShown(r: Record, remote: RemoteFile)
    requires r.queued > 0
    ensures OnBegin(r, remote) ==
            r.(queued := r.queued - 1, active := r.active[remote.href := Item(remote, 0, 0, Downloading)])
  {
  }

  /** What is shown once the server has answered: nothing new for a file in place, else the part that is kept, if any. */
  lemma OpenIsShown(r: Record, remote: RemoteFile, head: Head, disk: Disk)
    requires remote.href in r.active
    ensures var after := OnOpen(r, remote, disk, Open(remote.size, head, disk));
            if HasListedSize(remote.size, disk.local) then after == r
            else
              var kept := if head.Status? && BringsWhole(remote.size, head.code, disk) then 0 else ResumeOffset(remote.size, disk);
              && after.active == r.active[remote.href := r.active[remote.href].(transferred := kept, resumedFrom := kept)]
              && after.(active := r.active, resumed := r.resumed) == r
  {
  }

  /** The count of resumed transfers goes up with each answer that continues a part, and with nothing else. */
  lemma ResumedCountsParts(job: Job, s: State, step: Step)
    requires |job.paths| == |job.files| == |s.workers| && Enabled(job, s, step)
    ensures Do(job, s, step).record.resumed == s.record.resumed +
            if step.Connect? && ContinuesPart(job.files[step.i].size, step.head, DiskAt(s.disks, job.paths[step.i])) then 1 else 0
    ensures Start(job, s.disks, s.books.rows).record.resumed == 0
  {
    if step.Connect? {
      var size, disk := job.files[step.i].size, DiskAt(s.disks, job.paths[step.i]);
      assert Open(size, step.head, disk).Receiving? && Open(size, step.head, disk).resumedFrom > 0 <==> ContinuesPart(size, step.head, disk);
    }
  }

  /** A 206 answer for a file that is not there yet, to a request that asked for what is behind a part. */
  predicate ContinuesPart(size: nat, head: Head, disk: Disk) {
    head == Status(206) && !HasListedSize(size, disk.local) && disk.part.Some? && disk.part.value != []
    && (size == 0 || |disk.part.value| <= size)
  }

  // ---- How much is saved ----

  /** Between flushes at most one record per collected file since the last multiple of 25 is pending. */
  ghost predicate SavedOften(s: State) {
    match s.pc
    case Opening => s.books.pending == []
    case Collecting => |s.books.pending| <= s.record.completed % 25
    case Registering(_, next) => next.Checking? ==> |s.books.pending| <= (s.record.completed - 1) % 25 && s.record.completed > 0
    case Checking => s.record.completed > 0 && |s.books.pending| <= (s.record.completed - 1) % 25 + 1
    case Flushing(next) => next.Checking? ==> s.record.completed > 0
    case _ => true
  }

  lemma NextMultiple(n: nat)
    requires n > 0
    ensures n % 25 == if (n - 1) % 25 == 24 then 0 else (n - 1) % 25 + 1
  {
  }

  lemma StepSaves(job: Job, s: State, step: Step)
    requires Counts(job, s) && IngestionBooks.Control(s) && |job.paths| == |job.files|
    requires SavedOften(s) && Enabled(job, s, step)
    ensures SavedOften(Do(job, s, step))
  {
    match step
    case Collect(i) => CollectSaves(job, s, i);
    case Register(problem) => RegisterSaves(job, s, problem);
    case Flush(problem) => FlushSaves(job, s, problem);
    case Advance => AdvanceSaves(job, s);
    case _ => TransferSaves(job, s, step);
  }

  lemma TransferSaves(job: Job, s: State, step: Step)
    requires |job.paths| == |job.files| == |s.workers| && SavedOften(s) && Enabled(job, s, step)
    requires step.Begin? || step.Connect? || step.Chunk? || step.EndBody?
    ensures SavedOften(Do(job, s, step))
  {
    var t := Do(job, s, step);
    assert t.pc == s.pc && t.books == s.books && t.record.completed == s.record.completed;
  }

  lemma CollectSaves(job: Job, s: State, i: nat)
    requires |job.paths| == |job.files| == |s.workers| && SavedOften(s) && Enabled(job, s, Collect(i))
    ensures SavedOften(Do(job, s, Collect(i)))
  {
  }

  lemma RegisterSaves(job: Job, s: State, problem: Option<string>)
    requires |job.paths| == |job.files| == |s.workers| && IngestionBooks.Control(s) && SavedOften(s) && Enabled(job, s, Register(problem))
    ensures SavedOften(Do(job, s, Register(problem)))
  {
  }

  lemma FlushSaves(job: Job, s: State, problem: Option<string>)
    requires |job.paths| == |job.files| == |s.workers| && IngestionBooks.Control(s) && SavedOften(s) && Enabled(job, s, Flush(problem))
    ensures SavedOften(Do(job, s, Flush(problem)))
  {
  }

  lemma AdvanceSaves(job: Job, s: State)
    requires |job.paths| == |job.files| == |s.workers| && IngestionBooks.Control(s) && SavedOften(s) && Enabled(job, s, Advance)
    ensures SavedOften(Do(job, s, Advance))
  {
    if s.pc.Checking? {
      NextMultiple(s.record.completed);
    }
  }

  lemma {:induction false} StepsSave(job: Job, s: State, steps: seq<Step>, rows: set<string>)
    requires IngestionRuns.Kept(job, s, rows) && SavedOften(s) && Possible(job, s, steps)
    ensures SavedOften(After(job, s, steps))
    decreases |steps|
  {
    if steps != [] {
      StepSaves(job, s, steps[0]);
      IngestionRuns.StepKeeps(job, s, steps[0], rows);
      StepsSave(job, Do(job, s, steps[0]), steps[1..], rows);
    }
  }

  /**
   Whenever the coordinator waits for a transfer, at most 24 records are not yet in the table, and none is when the number
   of completed files is a multiple of 25.
   */
  lemma FewRecordsAreUnsaved(job: Job, disks: Disks, rows: set<string>, steps: seq<Step>)
    requires Lawful(job) && Possible(job, Start(job, disks, rows), steps)
    requires After(job, Start(job, disks, rows), steps).pc.Collecting?
    ensures var s := After(job, Start(job, disks, rows), steps);
            |s.books.pending| <= s.record.completed % 25 && |s.books.pending| <= 24
  {
    IngestionRuns.RunKeeps(job, disks, rows, []);
    assert Possible(job, Start(job, disks, rows), []);
    StepsSave(job, Start(job, disks, rows), steps, rows);
  }

  /** The coordinator flushes in the loop after every 25th file and after the last one, and only then. */
  lemma FlushIsDueIff(job: Job, s: State)
    requires |job.paths| == |job.files| == |s.workers| && s.pc == Checking
    ensures Do(job, s, Advance).pc ==
            if s.record.completed % 25 == 0 || s.record.completed == s.record.total then Flushing(Collecting) else Collecting
  {
  }

  // ---- Start and finish ----

  /** The precheck takes a file for present if and only if a file of the listed size, which is not 0, is in its place. */
  lemma PresentIff(job: Job, disks: Disks, rows: set<string>, i: nat)
    requires |job.paths| == |job.files| && i < |job.files|
    ensures Start(job, disks, rows).workers[i] ==
            if HasListedSize(job.files[i].size, DiskAt(disks, job.paths[i]).local) then Present else Waiting
  {
  }

  /** A collected file without an error text becomes the newest of at most 20 recent ones. */
  lemma NewestFirst(r: Record, remote: RemoteFile, o: Outcome)
    requires o.Failed? ==> o.error == ""
    ensures var recent := OnCollect(r, remote, o).recent;
            && recent != [] && recent[0].remote == remote && recent[0].status == Settled(o)
            && |recent| <= 20
            && (|r.recent| < 20 ==> recent[1..] == r.recent)
            && (|r.recent| == 20 ==> recent[1..] == r.recent[..19])
            && OnCollect(r, remote, o).failedFiles == r.failedFiles
  {
  }

  /** A collected file with one becomes the last failed one, with the progress it had. */
  lemma FailedIsListed(r: Record, remote: RemoteFile, e: string)
    requires e != "" && remote.href in r.active
    ensures var after := OnCollect(r, remote, Failed(e));
            && after.failedFiles == r.failedFiles + [Item(remote, r.active[remote.href].transferred, r.active[remote.href].resumedFrom, Settled(Failed(e)))]
            && after.recent == r.recent
  {
  }

  /** The items of the files found present: nothing transferred, and skipped; one for each of these files, in their order. */
  lemma {:induction false} PresentItemsAre(files: seq<RemoteFile>, ws: seq<Worker>)
    requires |files| == |ws|
    ensures var items := PresentItems(files, ws);
            && (forall item :: item in items ==> item == Item(item.remote, 0, 0, Settled(Skipped)))
            && (forall i :: 0 <= i < |ws| && ws[i].Present? ==> Item(files[i], 0, 0, Settled(Skipped)) in items)
            && (ws != [] && ws[|ws| - 1].Present? ==> items[|items| - 1].remote == files[|ws| - 1])
  {
    if ws != [] {
      PresentItemsAre(files[..|ws| - 1], ws[..|ws| - 1]);
    }
  }

  /** Of the files found present, the record shows the last 20, newest first. */
  lemma LatestTwenty(items: seq<Item>)
    ensures |Latest(items)| == (if |items| < 20 then |items| else 20)
    ensures forall k :: 0 <= k < |Latest(items)| ==> Latest(items)[k] == items[|items| - 1 - k]
  {
  }
}
