/** Registration of downloaded files: nothing is lost or registered twice, for every batch size and completion order. */
module IngestionBooks {
  import opened Text
  import opened Transfer
  import opened Ingestion

  function Set(paths: seq<string>): set<string> {
    set p | p in paths
  }

  ghost predicate NoDuplicates(paths: seq<string>) {
    forall i, j :: 0 <= i < j < |paths| ==> paths[i] != paths[j]
  }

  /** The local paths that have a row before the job. */
  function Known(job: Job, rows: set<string>): set<string> {
    set p | p in job.paths && p in rows
  }

  // ---- Control ----

  /** The job has run into an exception. */
  predicate Failing(pc: Pc) {
    pc.Raised? || (pc.Closing? && pc.error.Some?) || (pc.Ended? && pc.error.Some?)
  }

  /** The loop over the transfers is over, without an exception. */
  predicate PastLoop(pc: Pc) {
    pc == Closing(None) || pc == Ended(None) || pc == Flushing(Closing(None))
  }

  predicate BeforePool(pc: Pc) {
    match pc
    case Prechecking(_) => true
    case Opening => true
    case Registering(_, next) => next.Prechecking?
    case Flushing(next) => next.Prechecking? || next.Opening?
    case _ => false
  }

  predicate InLoop(pc: Pc) {
    match pc
    case Collecting => true
    case Checking => true
    case Registering(_, next) => next.Checking?
    case Flushing(next) => next.Checking? || next.Collecting?
    case _ => false
  }

  ghost predicate Control(s: State) {
    && (BeforePool(s.pc) || InLoop(s.pc) || PastLoop(s.pc) || Failing(s.pc))
    && (BeforePool(s.pc) ==> !s.pool)
    && (InLoop(s.pc) ==> s.pool)
    && (!s.pool ==> forall w :: w in s.workers ==> w.Present? || w.Waiting?)
    && (PastLoop(s.pc) ==> AllSettled(s.workers))
    && (s.pc.Closing? || s.pc.Ended? ==> Drained(s))
  }

  // ---- Books ----

  /** Files that need a row: present ones, and those collected without an error text. */
  predicate NeedsRow(w: Worker) {
    w.Present? || (w.Counted? && !Reported(w.outcome))
  }

  /** The coordinator has yet to look at the path. */
  predicate Owed(pc: Pc, path: string) {
    match pc
    case Prechecking(todo) => path in todo
    case Registering(p, next) => path == p || Owed(next, path)
    case Flushing(next) => Owed(next, path)
    case _ => false
  }

  ghost predicate NoneForgotten(job: Job, s: State)
    requires |job.paths| == |s.workers|
  {
    forall i :: 0 <= i < |s.workers| && NeedsRow(s.workers[i]) ==> job.paths[i] in s.books.existing || Owed(s.pc, job.paths[i])
  }

  ghost predicate Ledger(b: Books, known: set<string>, rows: set<string>) {
    && b.existing == known + Set(b.pending) + Set(b.flushed)
    && b.rows == rows + Set(b.flushed)
    && NoDuplicates(b.flushed + b.pending)
    && (forall p :: p in known ==> p !in b.flushed + b.pending)
  }

  /** Only a flush or an exception finds a full batch. */
  ghost predicate BatchFits(job: Job, s: State) {
    && |s.books.pending| <= job.batchSize
    && (!s.pc.Flushing? && !Failing(s.pc) ==> |s.books.pending| < job.batchSize)
  }

  ghost predicate Booked(job: Job, s: State, rows: set<string>) {
    && Lawful(job) && |s.workers| == |job.files|
    && Control(s)
    && Ledger(s.books, Known(job, rows), rows)
    && s.record.registered == |s.books.flushed|
    && (forall p :: p in s.books.flushed + s.books.pending ==> p in job.paths)
    && (forall p :: Owed(s.pc, p) ==> p in job.paths)
    && (s.pc.Registering? ==> s.pc.path !in s.books.existing)
    && (s.pc == Closing(None) || s.pc == Ended(None) ==> s.books.pending == [])
    && (!Failing(s.pc) ==> NoneForgotten(job, s))
    && BatchFits(job, s)
  }

  // ---- They are kept ----

  lemma {:induction false} PresentPathsAre(paths: seq<string>, ws: seq<Worker>)
    requires |paths| == |ws|
    ensures forall i :: 0 <= i < |ws| && ws[i].Present? ==> paths[i] in PresentPaths(paths, ws)
    ensures forall p :: p in PresentPaths(paths, ws) ==> p in paths
  {
    if ws != [] {
      var n := |ws| - 1;
      PresentPathsAre(paths[..n], ws[..n]);
      forall i | 0 <= i < |ws| && ws[i].Present? ensures paths[i] in PresentPaths(paths, ws) {
        if i < n {
          assert paths[..n][i] == paths[i] && ws[..n][i] == ws[i];
        }
      }
      assert paths[n] in paths;
    }
  }

  lemma StartIsBooked(job: Job, disks: Disks, rows: set<string>)
    requires Lawful(job)
    ensures Booked(job, Start(job, disks, rows), rows)
  {
    PresentPathsAre(job.paths, InitialWorkers(job, disks));
  }

  lemma TransferStepIsBooked(job: Job, s: State, step: Step, rows: set<string>)
    requires Booked(job, s, rows) && Enabled(job, s, step)
    requires step.Begin? || step.Connect? || step.Chunk? || step.EndBody?
    ensures Booked(job, Do(job, s, step), rows)
  {
    var t := Do(job, s, step);
    assert s.workers[step.i] in s.workers;
    assert t.workers == s.workers[step.i := t.workers[step.i]];
    forall i | 0 <= i < |t.workers| && NeedsRow(t.workers[i]) ensures NeedsRow(s.workers[i]) {
    }
  }

  lemma CollectIsBooked(job: Job, s: State, i: nat, rows: set<string>)
    requires Booked(job, s, rows) && Enabled(job, s, Collect(i))
    ensures Booked(job, Do(job, s, Collect(i)), rows)
  {
    var t := Do(job, s, Collect(i));
    assert job.paths[i] in job.paths;
    forall k | 0 <= k < |t.workers| && NeedsRow(t.workers[k])
      ensures job.paths[k] in t.books.existing || Owed(t.pc, job.paths[k])
    {
      assert k != i ==> NeedsRow(s.workers[k]);
    }
  }

  lemma NotedInLedger(b: Books, known: set<string>, rows: set<string>, path: string)
    requires Ledger(b, known, rows) && path !in b.existing
    ensures Ledger(Noted(b, path), known, rows)
  {
    var after := Noted(b, path);
    assert after.flushed + after.pending == b.flushed + b.pending + [path];
    assert Set(after.pending) == Set(b.pending) + {path};
    forall p | p in b.flushed + b.pending ensures p != path {
      assert p in Set(b.pending) + Set(b.flushed);
    }
  }

  lemma FlushedInLedger(b: Books, known: set<string>, rows: set<string>)
    requires Ledger(b, known, rows)
    ensures Ledger(Flushed(b), known, rows)
  {
    var after := Flushed(b);
    assert after.flushed + after.pending == b.flushed + b.pending;
    assert Set(after.flushed) == Set(b.flushed) + Set(b.pending);
  }

  lemma RegisterIsBooked(job: Job, s: State, problem: Option<string>, rows: set<string>)
    requires Booked(job, s, rows) && Enabled(job, s, Register(problem))
    ensures Booked(job, Do(job, s, Register(problem)), rows)
  {
    var t := Do(job, s, Register(problem));
    if problem.None? {
      NotedInLedger(s.books, Known(job, rows), rows, s.pc.path);
      assert Owed(s.pc, s.pc.path);
      forall p | p in t.books.flushed + t.books.pending ensures p in job.paths {
        assert p in s.books.flushed + s.books.pending || p == s.pc.path;
      }
      OwedNext(s.pc);
    }
  }

  lemma OwedNext(pc: Pc)
    requires pc.Registering?
    ensures forall p :: Owed(pc, p) <==> p == pc.path || Owed(pc.next, p)
    ensures forall p :: Owed(Flushing(pc.next), p) <==> Owed(pc.next, p)
  {
  }

  lemma FlushIsBooked(job: Job, s: State, problem: Option<string>, rows: set<string>)
    requires Booked(job, s, rows) && Enabled(job, s, Flush(problem))
    ensures Booked(job, Do(job, s, Flush(problem)), rows)
  {
    FlushedInLedger(s.books, Known(job, rows), rows);
    var t := Do(job, s, Flush(problem));
    assert t.books.flushed + t.books.pending == s.books.flushed + s.books.pending;
    assert forall p :: Owed(s.pc, p) <==> Owed(s.pc.next, p);
  }

  lemma AdvanceIsBooked(job: Job, s: State, rows: set<string>)
    requires Booked(job, s, rows) && Enabled(job, s, Advance)
    ensures Booked(job, Do(job, s, Advance), rows)
  {
    var t := Do(job, s, Advance);
    if s.pc.Prechecking? {
      var todo := s.pc.todo;
      assert todo != [] ==> todo == [todo[0]] + todo[1..];
      if t.pc.Registering? {
        OwedNext(t.pc);
      }
      forall p ensures Owed(t.pc, p) ==> Owed(s.pc, p)
        ensures Owed(s.pc, p) ==> Owed(t.pc, p) || p in s.books.existing
      {
        assert t.pc.Flushing? ==> !Owed(t.pc.next, p);
      }
    }
  }

  lemma StepIsBooked(job: Job, s: State, step: Step, rows: set<string>)
    requires Booked(job, s, rows) && Enabled(job, s, step)
    ensures Booked(job, Do(job, s, step), rows)
  {
    match step
    case Collect(i) => CollectIsBooked(job, s, i, rows);
    case Register(problem) => RegisterIsBooked(job, s, problem, rows);
    case Flush(problem) => FlushIsBooked(job, s, problem, rows);
    case Advance => AdvanceIsBooked(job, s, rows);
    case _ => TransferStepIsBooked(job, s, step, rows);
  }
}
