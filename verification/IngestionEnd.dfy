/** What a job leaves behind: a row for each file that arrived and no other, and a record that says how it ended. */
module IngestionEnd {
  import opened Text
  import opened Remote
  import opened Transfer
  import opened Ingestion
  import opened IngestionBooks
  import IngestionFiles
  import IngestionRuns

  // ---- Rows ----

  /** The file was found in place, or its transfer was collected without an error text. */
  predicate Arrived(w: Worker) {
    match w
    case Present => true
    case Counted(Failed(e)) => e == ""
    case Counted(_) => true
    case _ => false
  }

  predicate IsOfArrived(job: Job, ws: seq<Worker>, p: string)
    requires |job.paths| == |ws|
  {
    exists i :: 0 <= i < |ws| && job.paths[i] == p && Arrived(ws[i])
  }

  /** Whatever has a record, or will get one, is the path of a file that arrived. */
  ghost predicate OnlyArrived(job: Job, s: State)
    requires |job.paths| == |s.workers|
  {
    && (forall p :: p in s.books.flushed ==> IsOfArrived(job, s.workers, p))
    && (forall p :: p in s.books.pending ==> IsOfArrived(job, s.workers, p))
    && (forall p :: Owed(s.pc, p) ==> IsOfArrived(job, s.workers, p))
  }

  lemma ArrivedStay(job: Job, s: State, step: Step)
    requires |job.paths| == |job.files| == |s.workers| && Enabled(job, s, step)
    ensures forall p :: IsOfArrived(job, s.workers, p) ==> IsOfArrived(job, Do(job, s, step).workers, p)
  {
    var t := Do(job, s, step);
    assert forall i :: 0 <= i < |s.workers| && Arrived(s.workers[i]) ==> t.workers[i] == s.workers[i];
    forall p | IsOfArrived(job, s.workers, p) ensures IsOfArrived(job, t.workers, p) {
      var i :| 0 <= i < |s.workers| && job.paths[i] == p && Arrived(s.workers[i]);
      assert Arrived(t.workers[i]);
    }
  }

  lemma StepKeepsRows(job: Job, s: State, step: Step)
    requires |job.paths| == |job.files| == |s.workers| && OnlyArrived(job, s) && Enabled(job, s, step)
    ensures OnlyArrived(job, Do(job, s, step))
  {
    ArrivedStay(job, s, step);
    match step
    case Collect(i) => CollectKeepsRows(job, s, i);
    case Register(problem) => RegisterKeepsRows(job, s, problem);
    case Flush(problem) =>
    case Advance => AdvanceOwesLess(job, s);
    case _ => assert Do(job, s, step).pc == s.pc && Do(job, s, step).books == s.books;
  }

  lemma CollectKeepsRows(job: Job, s: State, i: nat)
    requires |job.paths| == |job.files| == |s.workers| && OnlyArrived(job, s) && Enabled(job, s, Collect(i))
    ensures OnlyArrived(job, Do(job, s, Collect(i)))
  {
    ArrivedStay(job, s, Collect(i));
    var t := Do(job, s, Collect(i));
    assert t.pc.Registering? ==> Arrived(t.workers[i]);
    assert forall p :: Owed(t.pc, p) ==> t.pc.Registering? && p == job.paths[i];
  }

  lemma RegisterKeepsRows(job: Job, s: State, problem: Option<string>)
    requires |job.paths| == |job.files| == |s.workers| && OnlyArrived(job, s) && Enabled(job, s, Register(problem))
    ensures OnlyArrived(job, Do(job, s, Register(problem)))
  {
    var t := Do(job, s, Register(problem));
    OwedNext(s.pc);
    assert Owed(s.pc, s.pc.path);
    assert t.workers == s.workers && t.books.flushed == s.books.flushed;
    forall p | p in t.books.pending ensures IsOfArrived(job, s.workers, p) {
      assert p in s.books.pending || p == s.pc.path;
    }
    forall p | Owed(t.pc, p) ensures Owed(s.pc, p) {
    }
  }

  lemma AdvanceOwesLess(job: Job, s: State)
    requires |job.paths| == |job.files| == |s.workers| && Enabled(job, s, Advance)
    ensures forall p :: Owed(Do(job, s, Advance).pc, p) ==> Owed(s.pc, p)
    ensures Do(job, s, Advance).books == s.books
  {
    var t := Do(job, s, Advance);
    forall p | Owed(t.pc, p) ensures Owed(s.pc, p) {
      if s.pc.Prechecking? && s.pc.todo != [] {
        assert s.pc.todo == [s.pc.todo[0]] + s.pc.todo[1..];
        if t.pc.Registering? {
          OwedNext(t.pc);
        }
      } else if t.pc.Flushing? {
        assert !Owed(t.pc.next, p);
      }
    }
  }

  lemma {:induction false} PresentPathsArrived(job: Job, ws: seq<Worker>, n: nat)
    requires |job.paths| == |ws| && n <= |ws|
    ensures forall p :: p in PresentPaths(job.paths[..n], ws[..n]) ==> IsOfArrived(job, ws, p)
  {
    if n > 0 {
      PresentPathsArrived(job, ws, n - 1);
      assert job.paths[..n][..n - 1] == job.paths[..n - 1] && ws[..n][..n - 1] == ws[..n - 1];
      assert ws[n - 1].Present? ==> Arrived(ws[n - 1]);
    }
  }

  lemma StartKeepsRows(job: Job, disks: Disks, rows: set<string>)
    requires |job.paths| == |job.files|
    ensures OnlyArrived(job, Start(job, disks, rows))
  {
    var s := Start(job, disks, rows);
    PresentPathsArrived(job, s.workers, |s.workers|);
    assert job.paths[..|s.workers|] == job.paths && s.workers[..|s.workers|] == s.workers;
  }

  lemma {:induction false} StepsKeepRows(job: Job, s: State, steps: seq<Step>)
    requires |job.paths| == |job.files| == |s.workers| && OnlyArrived(job, s) && Possible(job, s, steps)
    ensures OnlyArrived(job, After(job, s, steps))
    decreases |steps|
  {
    if steps != [] {
      StepKeepsRows(job, s, steps[0]);
      StepsKeepRows(job, Do(job, s, steps[0]), steps[1..]);
    }
  }

  /** In every state of every interleaving, a path that got its row from the job is that of a file that arrived. */
  lemma OnlyArrivedFilesGetRows(job: Job, disks: Disks, rows: set<string>, steps: seq<Step>, p: string)
    requires Lawful(job) && Possible(job, Start(job, disks, rows), steps)
    requires p in After(job, Start(job, disks, rows), steps).books.rows && p !in rows
    ensures IsOfArrived(job, After(job, Start(job, disks, rows), steps).workers, p)
  {
    IngestionRuns.RunKeeps(job, disks, rows, steps);
    StartKeepsRows(job, disks, rows);
    StepsKeepRows(job, Start(job, disks, rows), steps);
  }

  /** So when a job has ended without an exception, a file has a row if and only if it had one before or arrived. */
  lemma HasRowIffArrived(job: Job, disks: Disks, rows: set<string>, steps: seq<Step>, i: nat)
    requires Lawful(job) && IngestionFiles.DistinctPaths(job) && Possible(job, Start(job, disks, rows), steps)
    requires After(job, Start(job, disks, rows), steps).pc == Ended(None) && i < |job.files|
    ensures var s := After(job, Start(job, disks, rows), steps);
            job.paths[i] in s.books.rows <==> job.paths[i] in rows || Arrived(s.workers[i])
  {
    var s := After(job, Start(job, disks, rows), steps);
    IngestionRuns.QuietEndIsComplete(job, disks, rows, steps);
    IngestionRuns.RunKeeps(job, disks, rows, steps);
    assert Arrived(s.workers[i]) ==> NeedsRow(s.workers[i]);
    if job.paths[i] in s.books.rows && job.paths[i] !in rows {
      OnlyArrivedFilesGetRows(job, disks, rows, steps, job.paths[i]);
    }
  }

  // ---- The record ----

  /** The exception with which the job ends, as far as it is decided. */
  function ErrorOf(pc: Pc): Option<string> {
    match pc
    case Closing(e) => e
    case Ended(e) => e
    case Registering(_, next) => ErrorOf(next)
    case Flushing(next) => ErrorOf(next)
    case _ => None
  }

  predicate Told(s: State) {
    && s.record.running == !s.pc.Ended? && s.record.done == s.pc.Ended?
    && s.record.error == ErrorOf(s.pc)
    && (!s.pc.Closing? && !s.pc.Ended? ==> ErrorOf(s.pc) == None)
    && (s.pc.Ended? ==> s.record.active == map[] && s.record.queued == 0)
  }

  lemma StepTells(job: Job, s: State, step: Step)
    requires |job.paths| == |job.files| == |s.workers| && Control(s) && Told(s) && Enabled(job, s, step)
    ensures Told(Do(job, s, step))
  {
    IngestionRuns.NothingAfterTheEnd(job, s, step);
    match step
    case Advance =>
    case Flush(problem) =>
    case Register(problem) =>
    case _ => TransferTells(job, s, step);
  }

  lemma TransferTells(job: Job, s: State, step: Step)
    requires |job.paths| == |job.files| == |s.workers| && Enabled(job, s, step)
    requires step.Begin? || step.Connect? || step.Chunk? || step.EndBody? || step.Collect?
    ensures var r, t := s.record, Do(job, s, step);
            && t.record.running == r.running && t.record.done == r.done && t.record.error == r.error
            && (step.Collect? || t.pc == s.pc) && (step.Collect? ==> s.pc.Collecting? && ErrorOf(t.pc) == None && !t.pc.Ended?)
  {
  }

  lemma {:induction false} StepsTell(job: Job, s: State, steps: seq<Step>, rows: set<string>)
    requires IngestionRuns.Kept(job, s, rows) && Told(s) && Possible(job, s, steps)
    ensures Told(After(job, s, steps))
    decreases |steps|
  {
    if steps != [] {
      StepTells(job, s, steps[0]);
      IngestionRuns.StepKeeps(job, s, steps[0], rows);
      StepsTell(job, Do(job, s, steps[0]), steps[1..], rows);
    }
  }

  /**
   In every interleaving the record says "running" until the job has ended and "done" from then on, with the text of the
   exception that ended it, if any, and with no transfer active or queued.
   */
  lemma RecordTellsTheEnd(job: Job, disks: Disks, rows: set<string>, steps: seq<Step>)
    requires Lawful(job) && Possible(job, Start(job, disks, rows), steps)
    ensures var s := After(job, Start(job, disks, rows), steps);
            && s.record.running == !s.pc.Ended? && s.record.done == s.pc.Ended?
            && (s.pc.Ended? ==> s.record.error == s.pc.error && s.record.active == map[] && s.record.queued == 0)
  {
    IngestionRuns.RunKeeps(job, disks, rows, []);
    assert Possible(job, Start(job, disks, rows), []);
    StepsTell(job, Start(job, disks, rows), steps, rows);
  }
}
