/** The counters of a download job agree with what its workers have done, under every interleaving. */
module IngestionCounts {
  import opened Remote
  import opened Transfer
  import opened Ingestion

  datatype Tally = Tally(
    queued: int, active: int, completed: int, downloaded: int, skipped: int, failed: int, reported: int)

  function One(w: Worker): Tally {
    match w
    case Present => Tally(0, 0, 1, 0, 1, 0, 0)
    case Waiting => Tally(1, 0, 0, 0, 0, 0, 0)
    case Counted(Downloaded) => Tally(0, 0, 1, 1, 0, 0, 0)
    case Counted(Skipped) => Tally(0, 0, 1, 0, 1, 0, 0)
    case Counted(Failed(e)) => Tally(0, 0, 1, 0, 0, 1, if e != "" then 1 else 0)
    case _ => Tally(0, 1, 0, 0, 0, 0, 0)
  }

  function Plus(a: Tally, b: Tally): Tally {
    Tally(a.queued + b.queued, a.active + b.active, a.completed + b.completed, a.downloaded + b.downloaded,
          a.skipped + b.skipped, a.failed + b.failed, a.reported + b.reported)
  }

  function Minus(a: Tally, b: Tally): Tally {
    Tally(a.queued - b.queued, a.active - b.active, a.completed - b.completed, a.downloaded - b.downloaded,
          a.skipped - b.skipped, a.failed - b.failed, a.reported - b.reported)
  }

  function SumOf(one: Worker -> Tally, ws: seq<Worker>): Tally {
    if ws == [] then Tally(0, 0, 0, 0, 0, 0, 0) else Plus(SumOf(one, ws[..|ws| - 1]), one(ws[|ws| - 1]))
  }

  /** How many files are in which state. */
  function Sum(ws: seq<Worker>): Tally {
    SumOf(One, ws)
  }

  lemma {:induction false} SumUpdate(one: Worker -> Tally, ws: seq<Worker>, i: nat, w: Worker)
    requires i < |ws|
    ensures SumOf(one, ws[i := w]) == Plus(Minus(SumOf(one, ws), one(ws[i])), one(w))
  {
    var n := |ws| - 1;
    var next := ws[i := w];
    if i < n {
      SumUpdate(one, ws[..n], i, w);
      assert next[..n] == ws[..n][i := w] && next[n] == ws[n];
    } else {
      assert next[..n] == ws[..n];
    }
  }

  lemma {:induction false} SumsAddUp(ws: seq<Worker>)
    ensures var t := Sum(ws);
            && t.queued + t.active + t.completed == |ws|
            && t.completed == t.downloaded + t.skipped + t.failed
            && 0 <= t.reported <= t.failed && 0 <= t.queued && 0 <= t.active && 0 <= t.completed
  {
    if ws != [] {
      SumsAddUp(ws[..|ws| - 1]);
    }
  }

  lemma OneInFlight(w: Worker)
    requires InFlight(w)
    ensures One(w) == Tally(0, 1, 0, 0, 0, 0, 0)
  {
  }

  lemma PlusUndoesMinus(a: Tally, b: Tally)
    ensures Plus(Minus(a, b), b) == a
  {
  }

  /** Moving a transfer in flight on changes no count. */
  lemma SumStays(ws: seq<Worker>, i: nat, w: Worker)
    requires i < |ws| && InFlight(ws[i]) && InFlight(w)
    ensures Sum(ws[i := w]) == Sum(ws)
  {
    SumUpdate(One, ws, i, w);
    OneInFlight(ws[i]);
    OneInFlight(w);
    PlusUndoesMinus(SumOf(One, ws), One(w));
  }

  lemma CollectedIsCounted(r: Record, remote: RemoteFile, ws: seq<Worker>, i: nat, o: Outcome)
    requires i < |ws| && InFlight(ws[i]) && CountersAre(r, Sum(ws))
    ensures CountersAre(OnCollect(r, remote, o), Sum(ws[i := Counted(o)]))
    ensures Sum(ws[i := Counted(o)]).queued == Sum(ws).queued && Sum(ws[i := Counted(o)]).active == Sum(ws).active - 1
  {
    SumUpdate(One, ws, i, Counted(o));
    SumsAddUp(ws);
  }

  /** A waiting file is counted as queued. */
  lemma WaitingIsQueued(ws: seq<Worker>, i: nat)
    requires i < |ws| && ws[i].Waiting?
    ensures Sum(ws).queued > 0
  {
    SumUpdate(One, ws, i, Present);
    SumsAddUp(ws[i := Present]);
  }

  // ---- The invariant ----

  predicate InFlight(w: Worker) {
    w.Started? || w.Streaming? || w.Finished?
  }

  ghost predicate ActiveIs(job: Job, ws: seq<Worker>, active: map<string, Item>)
    requires |job.files| == |ws|
  {
    && (forall i :: 0 <= i < |ws| ==> (job.files[i].href in active <==> InFlight(ws[i])))
    && (forall h :: h in active ==> IsHrefOf(job, h))
  }

  ghost predicate IsHrefOf(job: Job, h: string) {
    exists i :: 0 <= i < |job.files| && job.files[i].href == h
  }

  predicate IsReported(w: Worker) {
    w.Counted? && Reported(w.outcome)
  }

  /** `items` are the files whose failure was reported, each once. */
  ghost predicate FailuresAre(job: Job, ws: seq<Worker>, items: seq<Item>)
    requires |job.files| == |ws|
  {
    && (forall i, j :: 0 <= i < j < |items| ==> items[i].remote.href != items[j].remote.href)
    && (forall item :: item in items ==> HasFailed(job, ws, item.remote))
    && (forall i :: 0 <= i < |ws| && IsReported(ws[i]) ==> Lists(items, job.files[i]))
  }

  ghost predicate HasFailed(job: Job, ws: seq<Worker>, remote: RemoteFile)
    requires |job.files| == |ws|
  {
    exists i :: 0 <= i < |ws| && IsReported(ws[i]) && job.files[i] == remote
  }

  ghost predicate Lists(items: seq<Item>, remote: RemoteFile) {
    exists k :: 0 <= k < |items| && items[k].remote == remote
  }

  ghost predicate CountersAre(r: Record, t: Tally) {
    && r.completed == t.completed && r.downloaded == t.downloaded && r.skipped == t.skipped && r.failed == t.failed
    && |r.failedFiles| == t.reported
    && |r.recent| == if t.completed - t.reported < RECENT then t.completed - t.reported else RECENT
  }

  ghost predicate Counts(job: Job, s: State) {
    && Lawful(job) && |s.workers| == |job.files| && s.record.total == |job.files|
    && CountersAre(s.record, Sum(s.workers))
    && FailuresAre(job, s.workers, s.record.failedFiles)
    && (s.pc.Ended? <==> !s.record.running)
    && (s.record.running ==>
          && s.record.queued == Sum(s.workers).queued
          && |s.record.active| == Sum(s.workers).active
          && ActiveIs(job, s.workers, s.record.active))
  }

  // ---- It is kept ----

  lemma StartCounts(job: Job, disks: Disks, rows: set<string>)
    requires Lawful(job)
    ensures Counts(job, Start(job, disks, rows))
  {
    var ws := InitialWorkers(job, disks);
    SumOfInitial(job.files, ws);
    SumsAddUp(ws);
  }

  lemma {:induction false} SumOfInitial(files: seq<RemoteFile>, ws: seq<Worker>)
    requires |files| == |ws| && forall w :: w in ws ==> w.Present? || w.Waiting?
    ensures var t, n := Sum(ws), |PresentItems(files, ws)|;
            t == Tally(|ws| - n, 0, n, 0, n, 0, 0)
  {
    if ws != [] {
      SumOfInitial(files[..|ws| - 1], ws[..|ws| - 1]);
    }
  }

  lemma BeginCounts(job: Job, s: State, i: nat)
    requires Counts(job, s) && Enabled(job, s, Begin(i)) && !s.pc.Ended?
    ensures Counts(job, Do(job, s, Begin(i)))
  {
    SumUpdate(One, s.workers, i, Started);
    WaitingIsQueued(s.workers, i);
    var r := OnBegin(s.record, job.files[i]);
    assert r.active.Keys == s.record.active.Keys + {job.files[i].href};
    FailuresStay(job, s.workers, i, Started, s.record.failedFiles);
    ActiveGains(job, s.workers, i, Started, s.record.active, r.active);
  }

  /** `next` is `active` with or without `h`, and `h` belongs to file `i` alone. */
  lemma OthersStayActive(job: Job, ws: seq<Worker>, i: nat, w: Worker, active: map<string, Item>, next: map<string, Item>)
    requires |job.files| == |ws| && i < |ws| && DistinctHrefs(job.files) && ActiveIs(job, ws, active)
    requires forall h :: h != job.files[i].href ==> (h in next <==> h in active)
    requires job.files[i].href in next <==> InFlight(w)
    ensures ActiveIs(job, ws[i := w], next)
  {
    assert IsHrefOf(job, job.files[i].href);
    forall j | 0 <= j < |ws| ensures job.files[j].href in next <==> InFlight(ws[i := w][j]) {
      assert j != i ==> job.files[j].href != job.files[i].href;
    }
    forall h | h in next ensures IsHrefOf(job, h) {
      assert h != job.files[i].href ==> h in active;
    }
  }

  lemma ActiveGains(job: Job, ws: seq<Worker>, i: nat, w: Worker, active: map<string, Item>, next: map<string, Item>)
    requires |job.files| == |ws| && i < |ws| && DistinctHrefs(job.files) && InFlight(w)
    requires ActiveIs(job, ws, active) && next.Keys == active.Keys + {job.files[i].href}
    ensures ActiveIs(job, ws[i := w], next)
    ensures |next| == |active| + if InFlight(ws[i]) then 0 else 1
  {
    var h := job.files[i].href;
    OthersStayActive(job, ws, i, w, active, next);
    assert h in active <==> InFlight(ws[i]);
    OneMoreKey(active, next, h);
  }

  lemma OneMoreKey(active: map<string, Item>, next: map<string, Item>, h: string)
    requires next.Keys == active.Keys + {h}
    ensures |next| == |active| + if h in active then 0 else 1
  {
    assert |active.Keys| == |active| && |next.Keys| == |next|;
    assert h in active ==> next.Keys == active.Keys;
  }

  lemma ActiveLoses(job: Job, ws: seq<Worker>, i: nat, w: Worker, active: map<string, Item>, next: map<string, Item>)
    requires |job.files| == |ws| && i < |ws| && DistinctHrefs(job.files) && InFlight(ws[i]) && !InFlight(w)
    requires ActiveIs(job, ws, active) && next.Keys == active.Keys - {job.files[i].href}
    ensures ActiveIs(job, ws[i := w], next)
    ensures |next| == |active| - 1
  {
    OthersStayActive(job, ws, i, w, active, next);
    assert job.files[i].href in active;
    OneMoreKey(next, active, job.files[i].href);
  }

  /** A change that concerns no reported failure. */
  lemma FailuresStay(job: Job, ws: seq<Worker>, i: nat, w: Worker, items: seq<Item>)
    requires |job.files| == |ws| && i < |ws| && !IsReported(ws[i]) && !IsReported(w)
    requires FailuresAre(job, ws, items)
    ensures FailuresAre(job, ws[i := w], items)
  {
    forall item | item in items ensures HasFailed(job, ws[i := w], item.remote) {
      var j :| 0 <= j < |ws| && IsReported(ws[j]) && job.files[j] == item.remote;
      assert ws[i := w][j] == ws[j];
    }
  }

  lemma FailuresGain(job: Job, ws: seq<Worker>, i: nat, w: Worker, items: seq<Item>, item: Item)
    requires |job.files| == |ws| && i < |ws| && DistinctHrefs(job.files) && !IsReported(ws[i]) && IsReported(w)
    requires FailuresAre(job, ws, items) && item.remote == job.files[i]
    ensures FailuresAre(job, ws[i := w], items + [item])
  {
    var next, more := ws[i := w], items + [item];
    assert next[i] == w;
    forall x | x in more ensures HasFailed(job, next, x.remote) && (x in items ==> x.remote.href != item.remote.href) {
      if x in items {
        var j :| 0 <= j < |ws| && IsReported(ws[j]) && job.files[j] == x.remote;
        assert next[j] == ws[j];
      }
    }
    forall j | 0 <= j < |next| && IsReported(next[j]) ensures Lists(more, job.files[j]) {
      if j == i {
        assert more[|items|].remote == job.files[i];
      } else {
        var k :| 0 <= k < |items| && items[k].remote == job.files[j];
        assert more[k] == items[k];
      }
    }
  }

  /** A step that moves a transfer in flight on, and at most changes the progress shown for it. */
  lemma InFlightStep(job: Job, s: State, t: State, i: nat, w: Worker)
    requires Counts(job, s) && !s.pc.Ended? && i < |s.workers| && InFlight(s.workers[i]) && InFlight(w)
    requires t.workers == s.workers[i := w] && t.pc == s.pc
    requires ShowsProgress(s.record, t.record)
    ensures Counts(job, t)
  {
    SumStays(s.workers, i, w);
    FailuresStay(job, s.workers, i, w, s.record.failedFiles);
    assert job.files[i].href in s.record.active;
    assert t.record.active.Keys == s.record.active.Keys + {job.files[i].href};
    ActiveGains(job, s.workers, i, w, s.record.active, t.record.active);
  }

  lemma TransferStepCounts(job: Job, s: State, step: Step)
    requires Counts(job, s) && Enabled(job, s, step) && !s.pc.Ended? && (step.Connect? || step.Chunk? || step.EndBody?)
    ensures Counts(job, Do(job, s, step))
  {
    var t := Do(job, s, step);
    match step {
      case Connect(i, head) =>
        var before := DiskAt(s.disks, job.paths[i]);
        OpenShape(s.record, job.files[i], before, Open(job.files[i].size, head, before));
      case Chunk(i, chunk) => ChunkShape(s.record, job.files[i].href, |chunk|);
      case _ =>
    }
    InFlightStep(job, s, t, step.i, t.workers[step.i]);
  }

  /** The record's progress sections keep the set of active files and all counters but `resumed`. */
  ghost predicate ShowsProgress(r: Record, next: Record) {
    next == r.(active := next.active, resumed := next.resumed) && next.active.Keys == r.active.Keys
  }

  lemma ProgressShape(r: Record, href: string, transferred: nat, resumedFrom: nat)
    ensures ShowsProgress(r, WithProgress(r, href, transferred, resumedFrom))
    ensures WithProgress(r, href, transferred, resumedFrom).resumed == r.resumed
  {
  }

  lemma OpenShape(r: Record, remote: RemoteFile, disk: Disk, o: Opened)
    ensures ShowsProgress(r, OnOpen(r, remote, disk, o))
  {
    if o.Receiving? {
      ProgressShape(r, remote.href, o.resumedFrom, o.resumedFrom);
    } else {
      ProgressShape(r, remote.href, ResumeOffset(remote.size, disk), ResumeOffset(remote.size, disk));
    }
  }

  lemma ChunkShape(r: Record, href: string, n: nat)
    ensures ShowsProgress(r, OnChunk(r, href, n))
  {
    if href in r.active {
      ProgressShape(r, href, r.active[href].transferred + n, r.active[href].resumedFrom);
    }
  }

  lemma CollectCounts(job: Job, s: State, i: nat)
    requires Counts(job, s) && Enabled(job, s, Collect(i))
    ensures Counts(job, Do(job, s, Collect(i)))
  {
    var o := s.workers[i].outcome;
    var t := Do(job, s, Collect(i));
    CollectedIsCounted(s.record, job.files[i], s.workers, i, o);
    assert t.record.active.Keys == s.record.active.Keys - {job.files[i].href};
    ActiveLoses(job, s.workers, i, Counted(o), s.record.active, t.record.active);
    if Reported(o) {
      FailuresGain(job, s.workers, i, Counted(o), s.record.failedFiles, t.record.failedFiles[|s.record.failedFiles|]);
    } else {
      FailuresStay(job, s.workers, i, Counted(o), s.record.failedFiles);
    }
  }

  lemma CoordinatorStepCounts(job: Job, s: State, step: Step)
    requires Counts(job, s) && Enabled(job, s, step) && (step.Register? || step.Flush? || step.Advance?)
    requires Steady(s.pc)
    ensures Counts(job, Do(job, s, step))
  {
  }

  /** The job does not end in the middle of a registration or a flush. */
  predicate Steady(pc: Pc) {
    match pc
    case Registering(_, next) => !next.Ended? && Steady(next)
    case Flushing(next) => !next.Ended? && Steady(next)
    case _ => true
  }
}
