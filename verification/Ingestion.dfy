/**
 The WebDAV download job as a step system: one coordinator and any number of download workers share the locked job
 record, the disk and the `captures` table, and interleave in any order.
 */
module Ingestion {
  import opened Text
  import opened Remote
  import opened Transfer

  // ---- The job record, and the sections of code that hold its lock ----

  datatype Status = Downloading | Settled(outcome: Outcome)

  datatype Item = Item(remote: RemoteFile, transferred: nat, resumedFrom: nat, status: Status)

  datatype Record = Record(
    running: bool,
    done: bool,
    retryAvailable: bool,
    error: Option<string>,
    total: nat,
    queued: nat,
    completed: nat,
    downloaded: nat,
    skipped: nat,
    failed: nat,
    resumed: nat,
    registered: nat,
    active: map<string, Item>,
    recent: seq<Item>,
    failedFiles: seq<Item>)

  const RESET := Record(true, false, false, None, 0, 0, 0, 0, 0, 0, 0, 0, map[], [], [])
  const RECENT := 20
  const REPORT_EVERY := 25

  /** The coordinator treats a transfer as failed when its error text is not empty. */
  predicate Reported(o: Outcome) {
    o.Failed? && o.error != ""
  }

  /** The last `RECENT` items, newest first. */
  function Latest(items: seq<Item>): seq<Item> {
    seq(if |items| < RECENT then |items| else RECENT, k requires 0 <= k < |items| => items[|items| - 1 - k])
  }

  function OnList(r: Record, n: nat): Record {
    r.(total := n, queued := n)
  }

  function OnPrecheck(r: Record, present: seq<Item>, candidates: nat): Record {
    r.(skipped := |present|, completed := |present|, queued := candidates, recent := Latest(present))
  }

  function OnBegin(r: Record, remote: RemoteFile): Record {
    r.(active := r.active[remote.href := Item(remote, 0, 0, Downloading)],
       queued := if r.queued > 0 then r.queued - 1 else 0)
  }

  function WithProgress(r: Record, href: string, transferred: nat, resumedFrom: nat): Record {
    if href in r.active then
      r.(active := r.active[href := r.active[href].(transferred := transferred, resumedFrom := resumedFrom)])
    else r
  }

  /** What the record shows of a transfer that has asked the server, or has found the file present. */
  function OnOpen(r: Record, remote: RemoteFile, disk: Disk, o: Opened): Record {
    if Complete(remote.size, disk) then r
    else if o.Receiving? then
      WithProgress(r, remote.href, o.resumedFrom, o.resumedFrom).(resumed := r.resumed + if o.resumedFrom > 0 then 1 else 0)
    else
      var resume := ResumeOffset(remote.size, disk);
      WithProgress(r, remote.href, resume, resume)
  }

  function OnChunk(r: Record, href: string, n: nat): Record {
    if href in r.active then WithProgress(r, href, r.active[href].transferred + n, r.active[href].resumedFrom) else r
  }

  function OnCollect(r: Record, remote: RemoteFile, o: Outcome): Record {
    var active := if remote.href in r.active then r.active[remote.href] else Item(remote, 0, 0, Downloading);
    var item := Item(remote, active.transferred, active.resumedFrom, Settled(o));
    var counted := r.(
      active := r.active - {remote.href},
      completed := r.completed + 1,
      downloaded := r.downloaded + if o.Downloaded? then 1 else 0,
      skipped := r.skipped + if o.Skipped? then 1 else 0,
      failed := r.failed + if o.Failed? then 1 else 0);
    if Reported(o) then counted.(failedFiles := r.failedFiles + [item])
    else
      var recent := [item] + r.recent;
      counted.(recent := if |recent| > RECENT then recent[..RECENT] else recent)
  }

  function OnFinish(r: Record): Record {
    r.(running := false, done := true, active := map[], queued := 0, retryAvailable := r.failedFiles != [])
  }

  // ---- What the coordinator keeps to itself ----

  /** Records not yet in the table, the destinations known to have one, the table's destinations, all flushed records. */
  datatype Books = Books(pending: seq<string>, existing: set<string>, rows: set<string>, flushed: seq<string>)

  function Noted(b: Books, path: string): Books {
    b.(pending := b.pending + [path], existing := b.existing + {path})
  }

  function Flushed(b: Books): Books {
    Books([], b.existing, b.rows + (set p | p in b.pending), b.flushed + b.pending)
  }

  // ---- The job ----

  /** The files of a job and the local path of each; the naming of paths is that of `LocalNames`. */
  datatype Job = Job(files: seq<RemoteFile>, paths: seq<string>, batchSize: nat)

  ghost predicate DistinctHrefs(files: seq<RemoteFile>) {
    forall i, j :: 0 <= i < j < |files| ==> files[i].href != files[j].href
  }

  ghost predicate Lawful(job: Job) {
    |job.paths| == |job.files| && job.batchSize > 0 && DistinctHrefs(job.files)
  }

  datatype Worker =
    | Present
    | Waiting
    | Started
    | Streaming(start: Disk, head: Head, chunks: seq<Bytes>)
    | Finished(outcome: Outcome)
    | Counted(outcome: Outcome)

  /** Where the coordinator is. A flush and a registration know what comes after them. */
  datatype Pc =
    | Prechecking(todo: seq<string>)
    | Opening
    | Collecting
    | Registering(path: string, next: Pc)
    | Checking
    | Flushing(next: Pc)
    | Raised(exception: string)
    | Closing(error: Option<string>)
    | Ended(error: Option<string>)

  type Disks = map<string, Disk>

  function DiskAt(disks: Disks, path: string): Disk {
    if path in disks then disks[path] else Disk(None, None)
  }

  datatype State = State(record: Record, workers: seq<Worker>, disks: Disks, books: Books, pc: Pc, pool: bool)

  function InitialWorkers(job: Job, disks: Disks): seq<Worker>
    requires |job.paths| == |job.files|
  {
    seq(|job.files|, i requires 0 <= i < |job.files| =>
      if Complete(job.files[i].size, DiskAt(disks, job.paths[i])) then Present else Waiting)
  }

  function PresentItems(files: seq<RemoteFile>, ws: seq<Worker>): (items: seq<Item>)
    requires |files| == |ws|
    ensures |items| <= |ws|
  {
    if ws == [] then []
    else
      var n := |ws| - 1;
      PresentItems(files[..n], ws[..n]) + if ws[n].Present? then [Item(files[n], 0, 0, Settled(Skipped))] else []
  }

  function PresentPaths(paths: seq<string>, ws: seq<Worker>): seq<string>
    requires |paths| == |ws|
  {
    if ws == [] then []
    else
      var n := |ws| - 1;
      PresentPaths(paths[..n], ws[..n]) + if ws[n].Present? then [paths[n]] else []
  }

  /** A job after its precheck; `rows` are the destinations that the table holds. */
  function Start(job: Job, disks: Disks, rows: set<string>): State
    requires |job.paths| == |job.files|
  {
    var ws := InitialWorkers(job, disks);
    var items := PresentItems(job.files, ws);
    var listed := OnList(RESET, |ws|);
    State(
      if items == [] then listed else OnPrecheck(listed, items, |ws| - |items|),
      ws, disks, Books([], (set p | p in job.paths && p in rows), rows, []),
      if ws == [] then Closing(None) else Prechecking(PresentPaths(job.paths, ws)),
      false)
  }

  // ---- Steps ----

  datatype Step =
    | Begin(i: nat)
    | Connect(i: nat, head: Head)
    | Chunk(i: nat, chunk: Bytes)
    | EndBody(i: nat, broken: Option<string>)
    | Collect(i: nat)
    | Register(problem: Option<string>)
    | Flush(problem: Option<string>)
    | Advance

  predicate Idle(w: Worker) {
    w.Present? || w.Finished? || w.Counted?
  }

  predicate IsCounted(w: Worker) {
    w.Present? || w.Counted?
  }

  predicate AllSettled(ws: seq<Worker>) {
    forall i :: 0 <= i < |ws| ==> IsCounted(ws[i])
  }

  /** No transfer is running or will run: leaving the block of the thread pool waits for this. */
  predicate Drained(s: State) {
    !s.pool || forall i :: 0 <= i < |s.workers| ==> Idle(s.workers[i])
  }

  predicate Enabled(job: Job, s: State, step: Step) {
    match step
    case Begin(i) => s.pool && i < |s.workers| && s.workers[i].Waiting?
    case Connect(i, _) => i < |s.workers| && s.workers[i].Started?
    case Chunk(i, _) => i < |s.workers| && s.workers[i].Streaming?
    case EndBody(i, _) => i < |s.workers| && s.workers[i].Streaming?
    case Collect(i) => s.pc.Collecting? && i < |s.workers| && s.workers[i].Finished?
    case Register(problem) => s.pc.Registering? && (problem.None? ==> DiskAt(s.disks, s.pc.path).local.Some?)
    case Flush(_) => s.pc.Flushing?
    case Advance =>
      match s.pc
      case Prechecking(_) => true
      case Opening => true
      case Collecting => AllSettled(s.workers)
      case Checking => true
      case Raised(_) => Drained(s)
      case Closing(_) => true
      case _ => false
  }

  function Do(job: Job, s: State, step: Step): (t: State)
    requires |job.paths| == |job.files| == |s.workers| && Enabled(job, s, step)
    ensures |t.workers| == |s.workers|
  {
    match step
    case Begin(i) => s.(record := OnBegin(s.record, job.files[i]), workers := s.workers[i := Started])
    case Connect(i, head) =>
      var before := DiskAt(s.disks, job.paths[i]);
      var o := Open(job.files[i].size, head, before);
      s.(record := OnOpen(s.record, job.files[i], before, o),
         workers := s.workers[i := if o.Decided? then Finished(o.outcome) else Streaming(before, head, [])],
         disks := s.disks[job.paths[i] := o.disk])
    case Chunk(i, chunk) =>
      var w := s.workers[i];
      s.(record := OnChunk(s.record, job.files[i].href, |chunk|),
         workers := s.workers[i := w.(chunks := w.chunks + [chunk])],
         disks := s.disks[job.paths[i] := Append(DiskAt(s.disks, job.paths[i]), chunk)])
    case EndBody(i, broken) =>
      var o := Close(job.files[i].size, broken, DiskAt(s.disks, job.paths[i]));
      s.(workers := s.workers[i := if o.Decided? then Finished(o.outcome) else s.workers[i]],
         disks := s.disks[job.paths[i] := o.disk])
    case Collect(i) =>
      var o, path := s.workers[i].outcome, job.paths[i];
      s.(record := OnCollect(s.record, job.files[i], o),
         workers := s.workers[i := Counted(o)],
         pc := if Reported(o) || path in s.books.existing then Checking else Registering(path, Checking))
    case Register(problem) =>
      if problem.Some? then s.(pc := Raised(problem.value))
      else
        var books := Noted(s.books, s.pc.path);
        s.(books := books, pc := if |books.pending| >= job.batchSize then Flushing(s.pc.next) else s.pc.next)
    case Flush(problem) =>
      if s.books.pending == [] then s.(pc := s.pc.next)
      else if problem.Some? then s.(pc := Raised(problem.value))
      else
        s.(record := s.record.(registered := s.record.registered + |s.books.pending|),
           books := Flushed(s.books), pc := s.pc.next)
    case Advance =>
      match s.pc
      case Prechecking(todo) =>
        s.(pc := if todo == [] then Flushing(Opening)
                 else if todo[0] in s.books.existing then Prechecking(todo[1..])
                 else Registering(todo[0], Prechecking(todo[1..])))
      case Opening => s.(pc := Collecting, pool := true)
      case Collecting => s.(pc := Flushing(Closing(None)))
      case Checking =>
        var due := s.record.completed % REPORT_EVERY == 0 || s.record.completed == s.record.total;
        s.(pc := if due then Flushing(Collecting) else Collecting)
      case Raised(e) => s.(pc := Closing(Some(e)), record := s.record.(error := Some(e)))
      case Closing(e) => s.(pc := Ended(e), record := OnFinish(s.record))
      case _ => s
  }

  /** Each step is possible where it is taken. */
  predicate Possible(job: Job, s: State, steps: seq<Step>)
    requires |job.paths| == |job.files| == |s.workers|
    decreases |steps|
  {
    steps == [] || (Enabled(job, s, steps[0]) && Possible(job, Do(job, s, steps[0]), steps[1..]))
  }

  function After(job: Job, s: State, steps: seq<Step>): (t: State)
    requires |job.paths| == |job.files| == |s.workers| && Possible(job, s, steps)
    ensures |t.workers| == |s.workers|
    decreases |steps|
  {
    if steps == [] then s else After(job, Do(job, s, steps[0]), steps[1..])
  }

  lemma OneStep(job: Job, s: State, step: Step)
    requires |job.paths| == |job.files| == |s.workers| && Enabled(job, s, step)
    ensures Possible(job, s, [step]) && After(job, s, [step]) == Do(job, s, step)
  {
    var t := Do(job, s, step);
    assert [step][1..] == [];
    assert Possible(job, t, []) && After(job, t, []) == t;
  }

  lemma {:induction false} StepsInTurn(job: Job, s: State, a: seq<Step>, b: seq<Step>)
    requires |job.paths| == |job.files| == |s.workers| && Possible(job, s, a) && Possible(job, After(job, s, a), b)
    ensures Possible(job, s, a + b) && After(job, s, a + b) == After(job, After(job, s, a), b)
    decreases |a|
  {
    if a == [] {
      assert a + b == b;
    } else {
      StepsInTurn(job, Do(job, s, a[0]), a[1..], b);
      assert (a + b)[0] == a[0] && (a + b)[1..] == a[1..] + b;
    }
  }

  lemma StepThen(job: Job, s: State, step: Step, rest: seq<Step>)
    requires |job.paths| == |job.files| == |s.workers| && Enabled(job, s, step) && Possible(job, Do(job, s, step), rest)
    ensures Possible(job, s, [step] + rest) && After(job, s, [step] + rest) == After(job, Do(job, s, step), rest)
  {
    assert ([step] + rest)[1..] == rest;
  }
}
