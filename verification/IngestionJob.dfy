/** The objects of a download job: the shared record with its locked sections, and the job with its loops. */
module IngestionJob {
  import opened Text
  import opened Remote
  import opened Transfer
  import opened Ingestion

  /** `_webdav_job`. Each method is one section of code that holds the lock. */
  class JobRecord {
    var running: bool
    var done: bool
    var retryAvailable: bool
    var error: Option<string>
    var total: nat
    var queued: nat
    var completed: nat
    var downloaded: nat
    var skipped: nat
    var failed: nat
    var resumed: nat
    var registered: nat
    var active: map<string, Item>
    var recent: seq<Item>
    var failedFiles: seq<Item>

    function View(): Record
      reads this
    {
      Record(running, done, retryAvailable, error, total, queued, completed, downloaded, skipped, failed, resumed,
             registered, active, recent, failedFiles)
    }

    constructor ()
      ensures View() == RESET.(running := false)
    {
      running, done, retryAvailable, error := false, false, false, None;
      total, queued, completed, downloaded, skipped, failed, resumed, registered := 0, 0, 0, 0, 0, 0, 0, 0;
      active, recent, failedFiles := map[], [], [];
    }

    /** A job starts, unless one is running. */
    method Start() returns (started: bool)
      modifies this
      ensures started == !old(running)
      ensures View() == if started then RESET else old(View())
    {
      started := !running;
      if started {
        Reset();
      }
    }

    method Reset()
      modifies this
      ensures View() == RESET
    {
      running, done, retryAvailable, error := true, false, false, None;
      ResetCounters();
      active, recent, failedFiles := map[], [], [];
    }

    method ResetCounters()
      modifies this
      ensures View() == old(View()).(total := 0, queued := 0, completed := 0, downloaded := 0, skipped := 0, failed := 0,
                                     resumed := 0, registered := 0)
    {
      total, queued, resumed, registered := 0, 0, 0, 0;
      ResetOutcomes();
    }

    method ResetOutcomes()
      modifies this
      ensures View() == old(View()).(completed := 0, downloaded := 0, skipped := 0, failed := 0)
    {
      completed, downloaded, skipped, failed := 0, 0, 0, 0;
    }

    method List(n: nat)
      modifies this
      ensures View() == OnList(old(View()), n)
    {
      total, queued := n, n;
    }

    method Precheck(present: seq<Item>, candidates: nat)
      modifies this
      ensures View() == OnPrecheck(old(View()), present, candidates)
    {
      skipped, completed, queued := |present|, |present|, candidates;
      var last := if |present| < RECENT then present else present[|present| - RECENT..];
      recent := [];
      for k := 0 to |last|
        invariant |recent| == k && forall j :: 0 <= j < k ==> recent[j] == last[k - 1 - j]
        invariant View() == OnPrecheck(old(View()), present, candidates).(recent := recent)
      {
        recent := [last[k]] + recent;
      }
    }

    method Begin(remote: RemoteFile)
      modifies this
      ensures View() == OnBegin(old(View()), remote)
    {
      active := active[remote.href := Item(remote, 0, 0, Downloading)];
      queued := if queued > 0 then queued - 1 else 0;
    }

    method Progress(href: string, transferred: nat, resumedFrom: nat)
      modifies this
      ensures View() == WithProgress(old(View()), href, transferred, resumedFrom)
    {
      if href in active {
        active := active[href := active[href].(transferred := transferred, resumedFrom := resumedFrom)];
      }
    }

    /** What a transfer writes between the check of its local file and the first chunk. */
    method Opened(remote: RemoteFile, disk: Disk, o: Transfer.Opened)
      modifies this
      ensures View() == OnOpen(old(View()), remote, disk, o)
    {
      if Complete(remote.size, disk) {
        return;
      }
      var resume := ResumeOffset(remote.size, disk);
      Progress(remote.href, resume, resume);
      if o.Receiving? {
        if o.resumedFrom > 0 {
          resumed := resumed + 1;
        }
        Progress(remote.href, o.resumedFrom, o.resumedFrom);
      }
    }

    method Chunk(href: string, n: nat)
      modifies this
      ensures View() == OnChunk(old(View()), href, n)
    {
      if href in active {
        active := active[href := active[href].(transferred := active[href].transferred + n)];
      }
    }

    method Collect(remote: RemoteFile, outcome: Outcome)
      modifies this
      ensures View() == OnCollect(old(View()), remote, outcome)
    {
      var was := if remote.href in active then active[remote.href] else Item(remote, 0, 0, Downloading);
      active := active - {remote.href};
      CountOutcome(outcome);
      ListOutcome(Item(remote, was.transferred, was.resumedFrom, Settled(outcome)), outcome);
    }

    /** The part of it that lists the file. */
    method ListOutcome(item: Item, outcome: Outcome)
      modifies this
      ensures View() == old(View()).(
        failedFiles := old(failedFiles) + if Reported(outcome) then [item] else [],
        recent := if Reported(outcome) then old(recent)
                  else if |old(recent)| >= RECENT then ([item] + old(recent))[..RECENT] else [item] + old(recent))
    {
      if outcome.Failed? && outcome.error != "" {
        failedFiles := failedFiles + [item];
      } else {
        assert failedFiles + [] == failedFiles;
        recent := [item] + recent;
        if |recent| > RECENT {
          recent := recent[..RECENT];
        }
      }
    }

    /** The part of it that counts. */
    method CountOutcome(outcome: Outcome)
      modifies this
      ensures View() == old(View()).(
        completed := old(completed) + 1,
        downloaded := old(downloaded) + if outcome.Downloaded? then 1 else 0,
        skipped := old(skipped) + if outcome.Skipped? then 1 else 0,
        failed := old(failed) + if outcome.Failed? then 1 else 0)
    {
      completed := completed + 1;
      match outcome {
        case Downloaded => downloaded := downloaded + 1;
        case Skipped => skipped := skipped + 1;
        case Failed(_) => failed := failed + 1;
      }
    }

    method Finish()
      modifies this
      ensures View() == OnFinish(old(View()))
    {
      running, done, active, queued := false, true, map[], 0;
      retryAvailable := failedFiles != [];
    }
  }

  /**
   What the outside world does in one round of the loop over completed transfers: steps that the transfers take before
   and after the collection, after the registration and after the check, which transfer `as_completed` yields, and the
   exceptions of the file system and the database.
   */
  datatype Round = Round(
    before: seq<Step>, pick: nat, collected: seq<Step>, registered: seq<Step>, checked: seq<Step>,
    stat: Option<string>, db: Option<string>, due: Option<string>)

  /**
   The job while it runs. Its loops are proved to take the steps of the step system: `s` is the state they start from,
   and `steps` are the steps they take.
   */
  class DownloadJob {
    const job: Job
    const record: JobRecord
    var pending: seq<string>
    var existing: set<string>
    var rows: set<string>
    var disks: Disks
    var workers: seq<Worker>
    var pool: bool
    ghost var flushed: seq<string>

    ghost function Accounts(): Books
      reads this
    {
      Books(pending, existing, rows, flushed)
    }

    ghost predicate Matches(s: State)
      reads this, record
    {
      && |job.paths| == |job.files| == |s.workers|
      && Accounts() == s.books && record.View() == s.record
      && disks == s.disks && workers == s.workers && pool == s.pool
    }

    /** A job after its precheck; the record has been started before. */
    constructor (job: Job, record: JobRecord, disks: Disks, rows: set<string>)
      requires |job.paths| == |job.files|
      ensures this.job == job && this.record == record && workers == InitialWorkers(job, disks)
      ensures Accounts() == Start(job, disks, rows).books && this.disks == disks && !pool
    {
      this.job, this.record, this.rows, this.disks := job, record, rows, disks;
      workers, pool := InitialWorkers(job, disks), false;
      pending, flushed := [], [];
      existing := set p | p in job.paths && p in rows;
    }

    // -- The transfers --

    predicate CanTake(step: Step)
      reads this
    {
      match step
      case Begin(i) => pool && i < |workers| && workers[i].Waiting?
      case Connect(i, _) => i < |workers| && workers[i].Started?
      case Chunk(i, _) => i < |workers| && workers[i].Streaming?
      case EndBody(i, _) => i < |workers| && workers[i].Streaming?
      case _ => false
    }

    /** One step of a transfer: what it does to the record and the disk. */
    method Take(step: Step, ghost s: State)
      requires Matches(s) && CanTake(step)
      modifies this`workers, this`disks, record
      ensures Enabled(job, s, step) && Matches(Do(job, s, step))
    {
      match step
      case Begin(i) =>
        workers := workers[i := Started];
        record.Begin(job.files[i]);
      case Connect(i, head) =>
        var before := DiskAt(disks, job.paths[i]);
        var o := Open(job.files[i].size, head, before);
        workers := workers[i := if o.Decided? then Finished(o.outcome) else Streaming(before, head, [])];
        disks := disks[job.paths[i] := o.disk];
        record.Opened(job.files[i], before, o);
      case Chunk(i, chunk) =>
        workers := workers[i := workers[i].(chunks := workers[i].chunks + [chunk])];
        disks := disks[job.paths[i] := Append(DiskAt(disks, job.paths[i]), chunk)];
        record.Chunk(job.files[i].href, |chunk|);
      case EndBody(i, broken) =>
        var o := Close(job.files[i].size, broken, DiskAt(disks, job.paths[i]));
        workers := workers[i := if o.Decided? then Finished(o.outcome) else workers[i]];
        disks := disks[job.paths[i] := o.disk];
    }

    /** Transfers go on while the coordinator does something else; a step that cannot be taken is left out. */
    method LetTransfersRun(wishes: seq<Step>, ghost s: State) returns (ghost steps: seq<Step>)
      requires Matches(s)
      modifies this`workers, this`disks, record
      ensures Possible(job, s, steps) && Matches(After(job, s, steps))
      ensures After(job, s, steps).pc == s.pc && After(job, s, steps).books == s.books
      ensures forall i :: 0 <= i < |workers| && old(workers)[i].Counted? ==> workers[i] == old(workers)[i]
      ensures forall i :: 0 <= i < |workers| && old(workers)[i].Finished? ==> workers[i] == old(workers)[i]
    {
      steps := [];
      ghost var t := s;
      for k := 0 to |wishes|
        invariant Possible(job, s, steps) && t == After(job, s, steps) && Matches(t) && t.pc == s.pc && t.books == s.books
        invariant forall i :: 0 <= i < |workers| && (old(workers)[i].Counted? || old(workers)[i].Finished?) ==>
                    workers[i] == old(workers)[i]
      {
        if CanTake(wishes[k]) {
          Take(wishes[k], t);
          OneStep(job, t, wishes[k]);
          StepsInTurn(job, s, steps, [wishes[k]]);
          steps, t := steps + [wishes[k]], Do(job, t, wishes[k]);
        }
      }
    }

    // -- The coordinator --

    /** `flush_records`; `problem` is the exception that the database raises. */
    method FlushRecords(problem: Option<string>, ghost s: State) returns (raised: Option<string>)
      requires Matches(s) && s.pc.Flushing?
      modifies this`pending, this`rows, this`flushed, record
      ensures Matches(Do(job, s, Flush(problem)))
      ensures Do(job, s, Flush(problem)).pc == if raised.Some? then Raised(raised.value) else s.pc.next
    {
      if pending == [] {
        return None;
      }
      if problem.Some? {
        return problem;
      }
      rows := rows + set p | p in pending;
      record.registered := record.registered + |pending|;
      flushed := flushed + pending;
      pending := [];
      raised := None;
    }

    /** `register_local`; `stat` and `db` are exceptions, and a file that is not there raises one in any case. */
    method RegisterLocal(path: string, stat: Option<string>, db: Option<string>, ghost s: State)
      returns (raised: Option<string>, ghost steps: seq<Step>)
      requires Matches(s) && s.pc.Registering? && s.pc.path == path
      modifies this`pending, this`existing, this`rows, this`flushed, record
      ensures Possible(job, s, steps) && Matches(After(job, s, steps))
      ensures After(job, s, steps).pc == if raised.Some? then Raised(raised.value) else s.pc.next
    {
      var problem := if DiskAt(disks, path).local.None? then Some(NO_PART) else stat;
      steps := [Register(problem)];
      ghost var t := Do(job, s, Register(problem));
      OneStep(job, s, Register(problem));
      if problem.Some? {
        return problem, steps;
      }
      pending := pending + [path];
      existing := existing + {path};
      raised := None;
      if |pending| >= job.batchSize {
        raised := FlushRecords(db, t);
        steps := steps + [Flush(db)];
        OneStep(job, t, Flush(db));
        StepsInTurn(job, s, [Register(problem)], [Flush(db)]);
      }
    }

    /** The loop that registers the files found present, and the flush after it. */
    method RegisterPresent(
      todo: seq<string>, stat: string -> Option<string>, db: string -> Option<string>, last: Option<string>, ghost s: State)
      returns (raised: Option<string>, ghost steps: seq<Step>)
      requires Matches(s) && s.pc == Prechecking(todo)
      modifies this`pending, this`existing, this`rows, this`flushed, record
      ensures Possible(job, s, steps) && Matches(After(job, s, steps))
      ensures After(job, s, steps).pc == if raised.Some? then Raised(raised.value) else Opening
    {
      steps := [];
      ghost var t := s;
      for k := 0 to |todo|
        invariant Possible(job, s, steps) && t == After(job, s, steps) && Matches(t)
        invariant t.pc == Prechecking(todo[k..])
      {
        var path := todo[k];
        assert todo[k..][0] == path && todo[k..][1..] == todo[k + 1..];
        assert t.pc.todo[0] == path && Enabled(job, t, Advance);
        ghost var next := Do(job, t, Advance);
        assert next.record == t.record && next.books == t.books;
        OneStep(job, t, Advance);
        StepsInTurn(job, s, steps, [Advance]);
        steps := steps + [Advance];
        t := next;
        if path !in existing {
          ghost var more;
          raised, more := RegisterLocal(path, stat(path), db(path), t);
          StepsInTurn(job, s, steps, more);
          steps, t := steps + more, After(job, t, more);
          if raised.Some? {
            return;
          }
        }
      }
      assert Enabled(job, t, Advance);
      ghost var ready := Do(job, t, Advance);
      OneStep(job, t, Advance);
      StepsInTurn(job, s, steps, [Advance]);
      steps := steps + [Advance];
      raised := FlushRecords(last, ready);
      OneStep(job, ready, Flush(last));
      StepsInTurn(job, s, steps, [Flush(last)]);
      steps := steps + [Flush(last)];
    }

    /** The start of the thread pool. */
    method OpenPool(ghost s: State)
      requires Matches(s) && s.pc.Opening?
      modifies this`pool
      ensures Enabled(job, s, Advance) && Matches(Do(job, s, Advance)) && Do(job, s, Advance).pc == Collecting
    {
      pool := true;
    }

    /** The locked section for a finished transfer. */
    method Collect(i: nat, outcome: Outcome, ghost s: State) returns (ghost steps: seq<Step>)
      requires Matches(s) && s.pc.Collecting? && i < |workers| && workers[i] == Finished(outcome)
      modifies this`workers, record
      ensures steps == [Ingestion.Collect(i)] && Possible(job, s, steps) && Matches(After(job, s, steps))
      ensures After(job, s, steps).pc ==
              if Reported(outcome) || job.paths[i] in existing then Checking else Registering(job.paths[i], Checking)
    {
      steps := [Ingestion.Collect(i)];
      OneStep(job, s, Ingestion.Collect(i));
      workers := workers[i := Counted(outcome)];
      record.Collect(job.files[i], outcome);
    }

    /** One round of the loop, for a transfer that is finished. Other transfers go on all the time. */
    method CollectTransfer(i: nat, outcome: Outcome, round: Round, ghost s: State)
      returns (raised: Option<string>, ghost steps: seq<Step>)
      requires Matches(s) && s.pc.Collecting? && i < |workers| && workers[i] == Finished(outcome)
      modifies this, record
      ensures pool == old(pool)
      ensures Possible(job, s, steps) && Matches(After(job, s, steps))
      ensures After(job, s, steps).pc == if raised.Some? then Raised(raised.value) else Collecting
    {
      steps := Collect(i, outcome, s);
      ghost var t := After(job, s, steps);
      ghost var more := LetTransfersRun(round.collected, t);
      StepsInTurn(job, s, steps, more);
      steps, t := steps + more, After(job, t, more);
      if !(outcome.Failed? && outcome.error != "") && job.paths[i] !in existing {
        raised, more := RegisterLocal(job.paths[i], round.stat, round.db, t);
        StepsInTurn(job, s, steps, more);
        steps, t := steps + more, After(job, t, more);
        if raised.Some? {
          return;
        }
      }
      more := LetTransfersRun(round.registered, t);
      StepsInTurn(job, s, steps, more);
      steps, t := steps + more, After(job, t, more);
      raised, more := FlushIfDue(round.checked, round.due, t);
      StepsInTurn(job, s, steps, more);
      steps := steps + more;
    }

    /** Every 25 files, and after the last one, the records go to the database. */
    method FlushIfDue(meanwhile: seq<Step>, problem: Option<string>, ghost s: State)
      returns (raised: Option<string>, ghost steps: seq<Step>)
      requires Matches(s) && s.pc.Checking?
      modifies this`pending, this`rows, this`flushed, this`workers, this`disks, record
      ensures Possible(job, s, steps) && Matches(After(job, s, steps))
      ensures After(job, s, steps).pc == if raised.Some? then Raised(raised.value) else Collecting
    {
      raised, steps := None, [Advance];
      OneStep(job, s, Advance);
      ghost var t := Do(job, s, Advance);
      var completed := record.completed;
      assert completed == s.record.completed && record.total == s.record.total;
      if completed % REPORT_EVERY == 0 || completed == record.total {
        ghost var more := LetTransfersRun(meanwhile, t);
        StepsInTurn(job, s, steps, more);
        steps, t := steps + more, After(job, t, more);
        raised := FlushRecords(problem, t);
        OneStep(job, t, Flush(problem));
        StepsInTurn(job, s, steps, [Flush(problem)]);
        steps := steps + [Flush(problem)];
      }
    }

    /**
     The loop over completed transfers, round by round, and the flush after it. In a round in which the transfer that
     is asked for is not finished the loop waits. It ends when every transfer has been collected, or with an exception.
     */
    method CollectAll(rounds: seq<Round>, last: Option<string>, ghost s: State)
      returns (raised: Option<string>, done: bool, ghost steps: seq<Step>)
      requires Matches(s) && s.pc.Collecting?
      modifies this, record
      ensures Possible(job, s, steps) && Matches(After(job, s, steps))
      ensures var pc := After(job, s, steps).pc;
              if raised.Some? then pc == Raised(raised.value) else if done then pc == Closing(None) else pc == Collecting
    {
      steps, raised, done := [], None, false;
      ghost var t := s;
      for k := 0 to |rounds|
        invariant Possible(job, s, steps) && t == After(job, s, steps) && Matches(t) && t.pc.Collecting? && raised.None? && !done
      {
        ghost var more := LetTransfersRun(rounds[k].before, t);
        StepsInTurn(job, s, steps, more);
        steps, t := steps + more, After(job, t, more);
        var i := rounds[k].pick;
        if i < |workers| && workers[i].Finished? {
          raised, more := CollectTransfer(i, workers[i].outcome, rounds[k], t);
          StepsInTurn(job, s, steps, more);
          steps, t := steps + more, After(job, t, more);
          if raised.Some? {
            return;
          }
        }
      }
      if forall i :: 0 <= i < |workers| ==> IsCounted(workers[i]) {
        ghost var more;
        raised, more := FinalFlush(last, t);
        StepsInTurn(job, s, steps, more);
        steps := steps + more;
        done := raised.None?;
      }
    }

    method FinalFlush(last: Option<string>, ghost s: State) returns (raised: Option<string>, ghost steps: seq<Step>)
      requires Matches(s) && s.pc.Collecting? && AllSettled(workers)
      modifies this`pending, this`rows, this`flushed, record
      ensures Possible(job, s, steps) && Matches(After(job, s, steps))
      ensures After(job, s, steps).pc == if raised.Some? then Raised(raised.value) else Closing(None)
    {
      ghost var t := Do(job, s, Advance);
      OneStep(job, s, Advance);
      raised := FlushRecords(last, t);
      OneStep(job, t, Flush(last));
      StepsInTurn(job, s, [Advance], [Flush(last)]);
      steps := [Advance] + [Flush(last)];
    }
  }
}
