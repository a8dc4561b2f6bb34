/** What holds of whole download jobs: in every reachable state, and when they end. */
module IngestionRuns {
  import opened Text
  import opened Remote
  import opened Transfer
  import opened Ingestion
  import IngestionCounts
  import IngestionBooks
  import IngestionFiles

  ghost predicate Kept(job: Job, s: State, rows: set<string>) {
    IngestionCounts.Counts(job, s) && IngestionBooks.Booked(job, s, rows)
  }

  lemma ControlIsSteady(s: State)
    requires IngestionBooks.Control(s)
    ensures IngestionCounts.Steady(s.pc)
  {
  }

  lemma NothingAfterTheEnd(job: Job, s: State, step: Step)
    requires IngestionBooks.Control(s) && |job.paths| == |job.files| == |s.workers| && Enabled(job, s, step)
    ensures !s.pc.Ended?
  {
    assert forall i :: 0 <= i < |s.workers| ==> s.workers[i] in s.workers;
  }

  lemma StepKeeps(job: Job, s: State, step: Step, rows: set<string>)
    requires Kept(job, s, rows) && Enabled(job, s, step)
    ensures Kept(job, Do(job, s, step), rows)
  {
    NothingAfterTheEnd(job, s, step);
    ControlIsSteady(s);
    IngestionBooks.StepIsBooked(job, s, step, rows);
    match step
    case Begin(i) => IngestionCounts.BeginCounts(job, s, i);
    case Collect(i) => IngestionCounts.CollectCounts(job, s, i);
    case Register(_) => IngestionCounts.CoordinatorStepCounts(job, s, step);
    case Flush(_) => IngestionCounts.CoordinatorStepCounts(job, s, step);
    case Advance => IngestionCounts.CoordinatorStepCounts(job, s, step);
    case _ => IngestionCounts.TransferStepCounts(job, s, step);
  }

  lemma {:induction false} StepsKeep(job: Job, s: State, steps: seq<Step>, rows: set<string>)
    requires Kept(job, s, rows) && Possible(job, s, steps)
    ensures Kept(job, After(job, s, steps), rows)
    decreases |steps|
  {
    if steps != [] {
      StepKeeps(job, s, steps[0], rows);
      StepsKeep(job, Do(job, s, steps[0]), steps[1..], rows);
    }
  }

  lemma RunKeeps(job: Job, disks: Disks, rows: set<string>, steps: seq<Step>)
    requires Lawful(job) && Possible(job, Start(job, disks, rows), steps)
    ensures Kept(job, After(job, Start(job, disks, rows), steps), rows)
  {
    IngestionCounts.StartCounts(job, disks, rows);
    IngestionBooks.StartIsBooked(job, disks, rows);
    StepsKeep(job, Start(job, disks, rows), steps, rows);
  }

  /** A transfer that failed with an empty error text has been collected. */
  ghost predicate SilentFailure(s: State) {
    Counted(Failed("")) in s.workers
  }

  /**
   In every state of every interleaving the counters add up, no failed file is listed twice, and every failed file is
   listed exactly when no failure was silent.
   */
  lemma JobRecordAddsUp(job: Job, disks: Disks, rows: set<string>, steps: seq<Step>)
    requires Lawful(job) && Possible(job, Start(job, disks, rows), steps)
    ensures var s := After(job, Start(job, disks, rows), steps);
            var r := s.record;
            && r.total == |job.files|
            && (r.running ==> r.queued + |r.active| + r.completed == r.total)
            && r.completed == r.downloaded + r.skipped + r.failed
            && (forall i, j :: 0 <= i < j < |r.failedFiles| ==> r.failedFiles[i].remote.href != r.failedFiles[j].remote.href)
            && (|r.failedFiles| == r.failed <==> !SilentFailure(s))
            && |r.recent| <= RECENT
  {
    RunKeeps(job, disks, rows, steps);
    var s := After(job, Start(job, disks, rows), steps);
    IngestionCounts.SumsAddUp(s.workers);
    SilentFailuresAreMissed(s.workers);
  }

  lemma {:induction false} SilentFailuresAreMissed(ws: seq<Worker>)
    ensures var t := IngestionCounts.Sum(ws);
            t.reported <= t.failed && (t.reported == t.failed <==> Counted(Failed("")) !in ws)
  {
    if ws != [] {
      var n := |ws| - 1;
      SilentFailuresAreMissed(ws[..n]);
      assert ws == ws[..n] + [ws[n]];
      IngestionCounts.SumsAddUp(ws[..n]);
    }
  }

  /**
   Such a failure: one photo of two bytes, of which one lies at its local path, and a connection that breaks with an
   exception without a text. The job ends as if all was well: nothing is listed for a retry, and the byte has a row.
   */
  lemma SilentFailureIsLost(job: Job, disks: Disks)
    requires SilentJob(job) && disks == map["/in/a.jpg" := Disk(Some([1]), None)]
    ensures var steps := SilentSteps();
            && Lawful(job) && Possible(job, Start(job, disks, {}), steps)
            && var s := After(job, Start(job, disks, {}), steps);
               && s.pc == Ended(None) && s.workers == [Counted(Failed(""))]
               && s.record.failed == 1 && s.record.failedFiles == [] && !s.record.retryAvailable
               && s.books.rows == {"/in/a.jpg"} && s.disks == disks
  {
    var transfer := [Begin(0), Connect(0, NoResponse("")), Collect(0)];
    var ending := [Register(None), Advance, Flush(None), Advance, Flush(None), Advance];
    var s := SilentOpening(job, disks);
    var t := SilentTransfer(job, s);
    SilentEnding(job, t);
    StepsInTurn(job, s, transfer, ending);
    StepsInTurn(job, Start(job, disks, {}), [Advance, Flush(None), Advance], transfer + ending);
  }

  /** The opening of the pool, the transfer, and the rest of the job. */
  function SilentSteps(): seq<Step> {
    [Advance, Flush(None), Advance]
    + ([Begin(0), Connect(0, NoResponse("")), Collect(0)]
       + [Register(None), Advance, Flush(None), Advance, Flush(None), Advance])
  }

  ghost predicate SilentJob(job: Job) {
    job == Job([RemoteFile("/a.jpg", "a.jpg", 2, "")], ["/in/a.jpg"], 250)
  }

  lemma SilentOpening(job: Job, disks: Disks) returns (s: State)
    requires SilentJob(job) && disks == map["/in/a.jpg" := Disk(Some([1]), None)]
    ensures Possible(job, Start(job, disks, {}), [Advance, Flush(None), Advance])
    ensures s == After(job, Start(job, disks, {}), [Advance, Flush(None), Advance])
    ensures s == State(OnList(RESET, 1), [Waiting], disks, Books([], {}, {}, []), Collecting, true)
  {
    SilentStart(job, disks);
    var s0 := Start(job, disks, {});
    var s1 := Do(job, s0, Advance);
    var s2 := Do(job, s1, Flush(None));
    s := Do(job, s2, Advance);
    OneStep(job, s2, Advance);
    StepThen(job, s1, Flush(None), [Advance]);
    StepThen(job, s0, Advance, [Flush(None), Advance]);
    assert [Advance] + [Flush(None), Advance] == [Advance, Flush(None), Advance];
    assert [Flush(None)] + [Advance] == [Flush(None), Advance];
  }

  lemma SilentTransfer(job: Job, s: State) returns (t: State)
    requires SilentJob(job) && s.disks == map["/in/a.jpg" := Disk(Some([1]), None)]
    requires s == State(OnList(RESET, 1), [Waiting], s.disks, Books([], {}, {}, []), Collecting, true)
    ensures Possible(job, s, [Begin(0), Connect(0, NoResponse("")), Collect(0)])
    ensures t == After(job, s, [Begin(0), Connect(0, NoResponse("")), Collect(0)])
    ensures t == State(t.record, [Counted(Failed(""))], s.disks, s.books, Registering("/in/a.jpg", Checking), true)
    ensures t.record.failed == t.record.completed == t.record.total == 1 && t.record.failedFiles == []
  {
    var s1 := Do(job, s, Begin(0));
    var s2 := Do(job, s1, Connect(0, NoResponse("")));
    assert s2.workers == [Finished(Failed(""))] && s2.disks == s.disks;
    t := Do(job, s2, Collect(0));
    OneStep(job, s2, Collect(0));
    StepThen(job, s1, Connect(0, NoResponse("")), [Collect(0)]);
    StepThen(job, s, Begin(0), [Connect(0, NoResponse("")), Collect(0)]);
    assert [Begin(0)] + [Connect(0, NoResponse("")), Collect(0)] == [Begin(0), Connect(0, NoResponse("")), Collect(0)];
    assert [Connect(0, NoResponse(""))] + [Collect(0)] == [Connect(0, NoResponse("")), Collect(0)];
  }

  lemma SilentEnding(job: Job, s: State)
    requires SilentJob(job) && s.disks == map["/in/a.jpg" := Disk(Some([1]), None)]
    requires s == State(s.record, [Counted(Failed(""))], s.disks, Books([], {}, {}, []), Registering("/in/a.jpg", Checking), true)
    requires s.record.failed == s.record.completed == s.record.total == 1 && s.record.failedFiles == []
    ensures var steps := [Register(None), Advance, Flush(None), Advance, Flush(None), Advance];
            && Possible(job, s, steps)
            && var t := After(job, s, steps);
               && t.pc == Ended(None) && t.workers == s.workers && t.disks == s.disks
               && t.record.failed == 1 && t.record.failedFiles == [] && !t.record.retryAvailable
               && t.books.rows == {"/in/a.jpg"}
  {
    var t := SilentRegistration(job, s);
    SilentClosing(job, t);
    StepsInTurn(job, s, [Register(None), Advance, Flush(None)], [Advance, Flush(None), Advance]);
    assert [Register(None), Advance, Flush(None)] + [Advance, Flush(None), Advance] ==
           [Register(None), Advance, Flush(None), Advance, Flush(None), Advance];
  }

  lemma SilentRegistration(job: Job, s: State) returns (t: State)
    requires SilentJob(job) && s.disks == map["/in/a.jpg" := Disk(Some([1]), None)]
    requires s == State(s.record, [Counted(Failed(""))], s.disks, Books([], {}, {}, []), Registering("/in/a.jpg", Checking), true)
    requires s.record.completed == s.record.total == 1
    ensures Possible(job, s, [Register(None), Advance, Flush(None)]) && t == After(job, s, [Register(None), Advance, Flush(None)])
    ensures t == s.(record := s.record.(registered := s.record.registered + 1), pc := Collecting,
                    books := Books([], {"/in/a.jpg"}, {"/in/a.jpg"}, ["/in/a.jpg"]))
  {
    var s1 := Do(job, s, Register(None));
    assert s1.books.pending == ["/in/a.jpg"] && s1.pc == Checking;
    var s2 := Do(job, s1, Advance);
    t := Do(job, s2, Flush(None));
    OneStep(job, s2, Flush(None));
    StepThen(job, s1, Advance, [Flush(None)]);
    StepThen(job, s, Register(None), [Advance, Flush(None)]);
    assert [Advance] + [Flush(None)] == [Advance, Flush(None)];
    assert [Register(None)] + [Advance, Flush(None)] == [Register(None), Advance, Flush(None)];
  }

  lemma SilentClosing(job: Job, s: State)
    requires |job.paths| == |job.files| == |s.workers| && AllSettled(s.workers) && s.pc == Collecting && s.books.pending == []
    ensures var steps := [Advance, Flush(None), Advance];
            Possible(job, s, steps) && After(job, s, steps) == s.(pc := Ended(None), record := OnFinish(s.record))
  {
    var s1 := Do(job, s, Advance);
    var s2 := Do(job, s1, Flush(None));
    OneStep(job, s2, Advance);
    StepThen(job, s1, Flush(None), [Advance]);
    StepThen(job, s, Advance, [Flush(None), Advance]);
    assert [Flush(None)] + [Advance] == [Flush(None), Advance];
    assert [Advance] + [Flush(None), Advance] == [Advance, Flush(None), Advance];
  }

  lemma SilentStart(job: Job, disks: Disks)
    requires SilentJob(job) && disks == map["/in/a.jpg" := Disk(Some([1]), None)]
    ensures var s := Start(job, disks, {});
            s == State(OnList(RESET, 1), [Waiting], disks, Books([], {}, {}, []), Prechecking([]), false)
  {
    var ws := InitialWorkers(job, disks);
    assert ws == [Waiting];
    assert PresentItems(job.files[..0], ws[..0]) == [] && PresentPaths(job.paths[..0], ws[..0]) == [];
  }

  /** At every moment no path is registered twice or already had a row, and `registered` counts what is in the table. */
  lemma NoPathTwice(job: Job, disks: Disks, rows: set<string>, steps: seq<Step>)
    requires Lawful(job) && Possible(job, Start(job, disks, rows), steps)
    ensures var s := After(job, Start(job, disks, rows), steps);
            && IngestionBooks.NoDuplicates(s.books.flushed + s.books.pending)
            && (forall p :: p in s.books.flushed + s.books.pending ==> p in job.paths && p !in rows)
            && s.books.rows == rows + IngestionBooks.Set(s.books.flushed)
            && s.record.registered == |s.books.flushed|
            && |s.books.pending| <= job.batchSize
  {
    RunKeeps(job, disks, rows, steps);
  }

  /** A job that ends without an exception has handled every file, and every file it does not report as failed has a row. */
  lemma QuietEndIsComplete(job: Job, disks: Disks, rows: set<string>, steps: seq<Step>)
    requires Lawful(job) && Possible(job, Start(job, disks, rows), steps)
    requires After(job, Start(job, disks, rows), steps).pc == Ended(None)
    ensures var s := After(job, Start(job, disks, rows), steps);
            && s.books.pending == []
            && s.record.completed == s.record.total
            && AllSettled(s.workers)
            && (forall i :: 0 <= i < |job.files| && IngestionBooks.NeedsRow(s.workers[i]) ==> job.paths[i] in s.books.rows)
            && !s.record.running && s.record.active == map[] && s.record.queued == 0
  {
    RunKeeps(job, disks, rows, steps);
    IngestionBooks.StartIsBooked(job, disks, rows);
    EndIsClosed(job, Start(job, disks, rows), steps, rows);
    var s := After(job, Start(job, disks, rows), steps);
    AllSettledAreCounted(s.workers);
    forall i | 0 <= i < |job.files| && IngestionBooks.NeedsRow(s.workers[i]) ensures job.paths[i] in s.books.rows {
      assert job.paths[i] in s.books.existing;
    }
  }

  lemma {:induction false} AllSettledAreCounted(ws: seq<Worker>)
    requires AllSettled(ws)
    ensures IngestionCounts.Sum(ws).completed == |ws|
  {
    if ws != [] {
      AllSettledAreCounted(ws[..|ws| - 1]);
    }
  }

  ghost predicate Closed(s: State) {
    s.pc.Ended? ==> s.record.active == map[] && s.record.queued == 0 && s.record.done
                    && (s.record.retryAvailable <==> s.record.failedFiles != [])
  }

  lemma {:induction false} EndIsClosed(job: Job, s: State, steps: seq<Step>, rows: set<string>)
    requires IngestionBooks.Booked(job, s, rows) && Possible(job, s, steps) && Closed(s)
    ensures Closed(After(job, s, steps))
    decreases |steps|
  {
    if steps != [] {
      NothingAfterTheEnd(job, s, steps[0]);
      IngestionBooks.StepIsBooked(job, s, steps[0], rows);
      EndIsClosed(job, Do(job, s, steps[0]), steps[1..], rows);
    }
  }

  /** However a job ends, it can be retried exactly when it lists a failed file. */
  lemma RetryIsOffered(job: Job, disks: Disks, rows: set<string>, steps: seq<Step>)
    requires Lawful(job) && Possible(job, Start(job, disks, rows), steps)
    requires After(job, Start(job, disks, rows), steps).pc.Ended?
    ensures var s := After(job, Start(job, disks, rows), steps);
            && s.record.done && !s.record.running
            && (s.record.retryAvailable <==> exists i :: 0 <= i < |s.workers| && IngestionCounts.IsReported(s.workers[i]))
  {
    RunKeeps(job, disks, rows, steps);
    IngestionBooks.StartIsBooked(job, disks, rows);
    EndIsClosed(job, Start(job, disks, rows), steps, rows);
    var s := After(job, Start(job, disks, rows), steps);
    if s.record.failedFiles != [] {
      assert s.record.failedFiles[0] in s.record.failedFiles;
    }
  }

  function Remotes(items: seq<Item>): seq<RemoteFile> {
    seq(|items|, k requires 0 <= k < |items| => items[k].remote)
  }

  /** The list a retry starts from holds files of the job it retries, each href once. */
  lemma RetryListIsLawful(job: Job, disks: Disks, rows: set<string>, steps: seq<Step>)
    requires Lawful(job) && Possible(job, Start(job, disks, rows), steps)
    ensures var files := Remotes(After(job, Start(job, disks, rows), steps).record.failedFiles);
            DistinctHrefs(files) && forall f :: f in files ==> f in job.files
  {
    RunKeeps(job, disks, rows, steps);
    var items := After(job, Start(job, disks, rows), steps).record.failedFiles;
    forall f | f in Remotes(items) ensures f in job.files {
      var k :| 0 <= k < |items| && items[k].remote == f;
      assert items[k] in items;
    }
  }

  /**
   With an honest server, a job that ends quietly and reports no failure at all leaves every file in its place with a row:
   a file that was not there before has exactly the remote content.
   */
  lemma EveryPhotoArrives(job: Job, at: IngestionFiles.Contents, disks: Disks, rows: set<string>, steps: seq<Step>)
    requires Lawful(job) && Possible(job, Start(job, disks, rows), steps)
    requires IngestionFiles.DistinctPaths(job) && IngestionFiles.SizesNotUnderstated(job, at)
    requires IngestionFiles.PartsArePrefixes(disks, at)
    requires IngestionFiles.HonestSteps(job, at, Start(job, disks, rows), steps)
    requires var s := After(job, Start(job, disks, rows), steps); s.pc == Ended(None) && s.record.failed == 0
    ensures var s := After(job, Start(job, disks, rows), steps);
            forall i :: 0 <= i < |job.files| ==>
              && job.paths[i] in s.books.rows
              && var local := DiskAt(s.disks, job.paths[i]).local;
                 local == Some(at(job.paths[i]))
                 || (local.Some? && |local.value| == job.files[i].size && local == DiskAt(disks, job.paths[i]).local)
  {
    var s := After(job, Start(job, disks, rows), steps);
    QuietEndIsComplete(job, disks, rows, steps);
    RunKeeps(job, disks, rows, steps);
    IngestionFiles.StartFits(job, at, disks, rows);
    IngestionFiles.RunFits(job, at, disks, Start(job, disks, rows), steps);
    forall i | 0 <= i < |job.files|
      ensures job.paths[i] in s.books.rows
      ensures var local := DiskAt(s.disks, job.paths[i]).local;
              local == Some(at(job.paths[i]))
              || (local.Some? && |local.value| == job.files[i].size && local == DiskAt(disks, job.paths[i]).local)
    {
      NoneFailed(s.workers, i);
      assert IngestionFiles.FileFits(at(job.paths[i]), job.files[i].size, DiskAt(disks, job.paths[i]).local,
                                     DiskAt(s.disks, job.paths[i]), s.workers[i]);
    }
  }

  lemma {:induction false} NoneFailed(ws: seq<Worker>, i: nat)
    requires i < |ws| && AllSettled(ws) && IngestionCounts.Sum(ws).failed == 0
    ensures ws[i].Present? || ws[i].outcome.Downloaded? || ws[i].outcome.Skipped?
  {
    var init, last := ws[..|ws| - 1], ws[|ws| - 1];
    IngestionCounts.SumsAddUp(init);
    assert last in ws;
    if i < |init| {
      assert init[i] == ws[i];
      NoneFailed(init, i);
    } else {
      assert ws[i] == last;
    }
  }

  // ---- Jobs end ----

  function Rank(w: Worker): nat {
    match w
    case Waiting => 4
    case Started => 3
    case Streaming(_, _, _) => 2
    case Finished(_) => 1
    case _ => 0
  }

  function Ranks(ws: seq<Worker>): nat {
    if ws == [] then 0 else Ranks(ws[..|ws| - 1]) + Rank(ws[|ws| - 1])
  }

  function PcRank(pc: Pc): nat {
    match pc
    case Ended(_) => 0
    case Closing(_) => 1
    case Raised(_) => 2
    case Collecting => 4
    case Checking => 7
    case Opening => 11
    case Prechecking(todo) => 14 + 4 * |todo|
    case Flushing(next) => 2 + PcRank(next)
    case Registering(_, next) => 3 + PcRank(next)
  }

  /** An upper bound for the steps that are left, not counting chunks. */
  function Left(s: State): nat {
    7 * Ranks(s.workers) + PcRank(s.pc)
  }

  lemma {:induction false} RanksUpdate(ws: seq<Worker>, i: nat, w: Worker)
    requires i < |ws|
    ensures Ranks(ws[i := w]) == Ranks(ws) - Rank(ws[i]) + Rank(w)
  {
    var n, next := |ws| - 1, ws[i := w];
    if i < n {
      RanksUpdate(ws[..n], i, w);
      assert next[..n] == ws[..n][i := w];
    } else {
      assert next[..n] == ws[..n];
    }
  }

  /** A transfer step, or its collection, moves one worker on. */
  lemma WorkerRunsDown(job: Job, s: State, step: Step)
    requires |job.paths| == |job.files| == |s.workers| && Enabled(job, s, step)
    requires step.Begin? || step.Connect? || step.Chunk? || step.EndBody? || step.Collect?
    ensures Ranks(Do(job, s, step).workers) + (if step.Chunk? then 0 else 1) <= Ranks(s.workers)
    ensures PcRank(Do(job, s, step).pc) <= PcRank(s.pc) + if step.Collect? then 6 else 0
  {
    var t := Do(job, s, step);
    assert t.workers == s.workers[step.i := t.workers[step.i]];
    RanksUpdate(s.workers, step.i, t.workers[step.i]);
    if step.EndBody? {
      assert t.workers[step.i].Finished?;
    }
  }

  lemma CoordinatorRunsDown(job: Job, s: State, step: Step)
    requires |job.paths| == |job.files| == |s.workers| && Enabled(job, s, step) && IngestionBooks.Control(s)
    requires step.Register? || step.Flush? || step.Advance?
    ensures PcRank(Do(job, s, step).pc) < PcRank(s.pc) && Do(job, s, step).workers == s.workers
  {
  }

  lemma StepsRunDown(job: Job, s: State, step: Step)
    requires |job.paths| == |job.files| == |s.workers| && Enabled(job, s, step) && IngestionBooks.Control(s)
    ensures Left(Do(job, s, step)) + (if step.Chunk? then 0 else 1) <= Left(s)
  {
    var ranks, pcRank := Ranks(s.workers), PcRank(s.pc);
    var t := Do(job, s, step);
    if step.Register? || step.Flush? || step.Advance? {
      CoordinatorRunsDown(job, s, step);
    } else {
      WorkerRunsDown(job, s, step);
    }
    assert 7 * Ranks(t.workers) + PcRank(t.pc) + (if step.Chunk? then 0 else 1) <= 7 * ranks + pcRank;
  }

  function StepsButChunks(steps: seq<Step>): nat {
    if steps == [] then 0 else StepsButChunks(steps[1..]) + if steps[0].Chunk? then 0 else 1
  }

  lemma {:induction false} RunsRunDown(job: Job, s: State, steps: seq<Step>, rows: set<string>)
    requires Kept(job, s, rows) && Possible(job, s, steps)
    ensures StepsButChunks(steps) + Left(After(job, s, steps)) <= Left(s)
    decreases |steps|
  {
    if steps != [] {
      StepKeeps(job, s, steps[0], rows);
      StepsRunDown(job, s, steps[0]);
      RunsRunDown(job, Do(job, s, steps[0]), steps[1..], rows);
    }
  }

  lemma {:induction false} LeftAtStart(job: Job, ws: seq<Worker>)
    requires |job.paths| == |ws| && forall w :: w in ws ==> w.Present? || w.Waiting?
    ensures 7 * Ranks(ws) + 4 * |PresentPaths(job.paths, ws)| <= 28 * |ws|
    decreases |ws|
  {
    if ws != [] {
      var n := |ws| - 1;
      LeftAtStart(job.(paths := job.paths[..n]), ws[..n]);
    }
  }

  ghost predicate CanGoOn(job: Job, s: State) {
    exists step :: Enabled(job, s, step)
  }

  lemma WorkerCanGoOn(job: Job, s: State, i: nat)
    requires i < |s.workers| && !HasNothingToDo(s, i)
    requires s.pool || !s.workers[i].Waiting?
    ensures CanGoOn(job, s)
  {
    match s.workers[i]
    case Waiting => assert Enabled(job, s, Begin(i));
    case Started => assert Enabled(job, s, Connect(i, NoResponse("timeout")));
    case Streaming(_, _, _) => assert Enabled(job, s, EndBody(i, Some("timeout")));
    case Finished(_) => assert Enabled(job, s, Collect(i));
    case _ => assert false;
  }

  predicate HasNothingToDo(s: State, i: nat)
    requires i < |s.workers|
  {
    if s.pc.Collecting? then IsCounted(s.workers[i]) else Idle(s.workers[i])
  }

  lemma GoesOn(job: Job, s: State, step: Step)
    requires Enabled(job, s, step)
    ensures CanGoOn(job, s)
  {
  }

  /** No state but the end is a dead end: some worker can go on, or the coordinator can. */
  lemma NeverStuck(job: Job, s: State)
    requires IngestionBooks.Control(s) && !s.pc.Ended?
    ensures CanGoOn(job, s)
  {
    if s.pc.Registering? {
      GoesOn(job, s, Register(Some("stat failed")));
    } else if s.pc.Flushing? {
      GoesOn(job, s, Flush(None));
    } else if s.pc.Collecting? && !AllSettled(s.workers) {
      var i :| 0 <= i < |s.workers| && !IsCounted(s.workers[i]);
      WorkerCanGoOn(job, s, i);
    } else if s.pc.Raised? && !Drained(s) {
      var i :| 0 <= i < |s.workers| && !Idle(s.workers[i]);
      WorkerCanGoOn(job, s, i);
    } else {
      GoesOn(job, s, Advance);
    }
  }

  /** Apart from chunks a job takes a bounded number of steps, and it can only stop at its end. */
  lemma JobsEnd(job: Job, disks: Disks, rows: set<string>, steps: seq<Step>)
    requires Lawful(job) && Possible(job, Start(job, disks, rows), steps)
    ensures StepsButChunks(steps) <= 28 * |job.files| + 14
    ensures !CanGoOn(job, After(job, Start(job, disks, rows), steps)) <==>
            After(job, Start(job, disks, rows), steps).pc.Ended?
  {
    RunKeeps(job, disks, rows, steps);
    var s0 := Start(job, disks, rows);
    IngestionCounts.StartCounts(job, disks, rows);
    IngestionBooks.StartIsBooked(job, disks, rows);
    RunsRunDown(job, s0, steps, rows);
    LeftAtStart(job, s0.workers);
    var s := After(job, s0, steps);
    if !s.pc.Ended? {
      NeverStuck(job, s);
    } else if step :| Enabled(job, s, step) {
      NothingAfterTheEnd(job, s, step);
      assert false;
    }
  }
}
