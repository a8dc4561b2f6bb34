/** What a download job does to the disk when the server is honest, under every interleaving and with crashes. */
module IngestionFiles {
  import opened Text
  import opened Transfer
  import opened Ingestion

  /** The remote content that belongs to a local path. */
  type Contents = string -> Bytes

  ghost predicate DistinctPaths(job: Job) {
    forall i, j :: 0 <= i < j < |job.paths| ==> job.paths[i] != job.paths[j]
  }

  ghost predicate SizesNotUnderstated(job: Job, at: Contents) {
    |job.paths| == |job.files| && forall i :: 0 <= i < |job.files| ==> job.files[i].size >= |at(job.paths[i])|
  }

  ghost predicate PartsArePrefixes(disks: Disks, at: Contents) {
    forall p :: IsPrefix(DiskAt(disks, p).part, at(p))
  }

  predicate HonestStep(job: Job, at: Contents, s: State, step: Step)
    requires |job.paths| == |job.files| == |s.workers| && Enabled(job, s, step)
  {
    match step
    case Connect(i, head) =>
      Honest(at(job.paths[i]), ResumeOffset(job.files[i].size, DiskAt(s.disks, job.paths[i])), head)
    case Chunk(i, chunk) =>
      var w := s.workers[i];
      HonestBody(at(job.paths[i]), ResumeOffset(job.files[i].size, w.start), w.head, Flatten(w.chunks + [chunk]))
    case _ => true
  }

  predicate HonestSteps(job: Job, at: Contents, s: State, steps: seq<Step>)
    requires |job.paths| == |job.files| == |s.workers| && Possible(job, s, steps)
    decreases |steps|
  {
    steps == [] || (HonestStep(job, at, s, steps[0]) && HonestSteps(job, at, Do(job, s, steps[0]), steps[1..]))
  }

  // ---- One file ----

  /** A stream has received an honest body, and the part file holds it. */
  predicate StreamFits(content: Bytes, size: nat, disk: Disk, w: Worker)
    requires w.Streaming?
  {
    var started := Open(size, w.head, w.start);
    && IsPrefix(w.start.part, content) && HonestAnswer(content, size, w.start, Answer(w.head, w.chunks, None))
    && started.Receiving? && disk == AppendAll(started.disk, w.chunks) && disk.local == w.start.local
  }

  predicate HasDownloaded(w: Worker) {
    (w.Finished? || w.Counted?) && w.outcome.Downloaded?
  }

  /** The part is a prefix, and the local file is the content once downloaded and what it was until then. */
  predicate FileFits(content: Bytes, size: nat, original: Option<Bytes>, disk: Disk, w: Worker) {
    && IsPrefix(disk.part, content)
    && (w.Streaming? ==> StreamFits(content, size, disk, w))
    && (if HasDownloaded(w) then disk == Disk(Some(content), None) else disk.local == original)
    && (w.Present? || ((w.Finished? || w.Counted?) && w.outcome.Skipped?) ==> Complete(size, disk))
  }

  lemma ConnectFits(content: Bytes, size: nat, original: Option<Bytes>, disk: Disk, head: Head)
    requires size >= |content| && FileFits(content, size, original, disk, Started)
    requires Honest(content, ResumeOffset(size, disk), head)
    ensures var o := Open(size, head, disk);
            FileFits(content, size, original, o.disk, if o.Decided? then Finished(o.outcome) else Streaming(disk, head, []))
  {
    AttemptIsExact(content, size, Answer(head, [], None), disk);
  }

  lemma AppendAllAppend(disk: Disk, chunks: seq<Bytes>, chunk: Bytes)
    ensures AppendAll(disk, chunks + [chunk]) == Append(AppendAll(disk, chunks), chunk)
  {
    assert (chunks + [chunk])[..|chunks|] == chunks;
  }

  /** Inside a body the part file is what the transfer resumed from and what has arrived since, and still a prefix. */
  lemma StreamIsPrefix(content: Bytes, size: nat, start: Disk, head: Head, chunks: seq<Bytes>)
    requires IsPrefix(start.part, content) && Open(size, head, start).Receiving?
    requires HonestAnswer(content, size, start, Answer(head, chunks, None))
    ensures IsPrefix(AppendAll(Open(size, head, start).disk, chunks).part, content)
    ensures AppendAll(Open(size, head, start).disk, chunks).local == start.local
  {
    var disk := Open(size, head, start).disk;
    AppendAllAppends(disk, chunks);
    PrefixExtends(disk.part.value, Flatten(chunks), content);
  }

  lemma ChunkFits(content: Bytes, size: nat, original: Option<Bytes>, disk: Disk, w: Worker, chunk: Bytes)
    requires w.Streaming? && FileFits(content, size, original, disk, w)
    requires HonestBody(content, ResumeOffset(size, w.start), w.head, Flatten(w.chunks + [chunk]))
    ensures FileFits(content, size, original, Append(disk, chunk), w.(chunks := w.chunks + [chunk]))
  {
    AppendAllAppend(Open(size, w.head, w.start).disk, w.chunks, chunk);
    StreamIsPrefix(content, size, w.start, w.head, w.chunks + [chunk]);
  }

  lemma CloseEndsAttempt(size: nat, disk: Disk, w: Worker, broken: Option<string>)
    requires w.Streaming? && Open(size, w.head, w.start).Receiving?
    requires disk == AppendAll(Open(size, w.head, w.start).disk, w.chunks)
    ensures Close(size, broken, disk) == Attempt(size, Answer(w.head, w.chunks, broken), w.start)
  {
  }

  lemma EndFits(content: Bytes, size: nat, original: Option<Bytes>, disk: Disk, w: Worker, broken: Option<string>)
    requires size >= |content| && w.Streaming? && FileFits(content, size, original, disk, w)
    ensures var o := Close(size, broken, disk);
            o.Decided? && FileFits(content, size, original, o.disk, Finished(o.outcome))
  {
    CloseEndsAttempt(size, disk, w, broken);
    AttemptIsExact(content, size, Answer(w.head, w.chunks, broken), w.start);
  }

  // ---- All files ----

  ghost predicate FilesFit(job: Job, at: Contents, before: Disks, s: State) {
    && |job.paths| == |job.files| == |s.workers| && DistinctPaths(job) && SizesNotUnderstated(job, at)
    && (forall i :: 0 <= i < |s.workers| ==>
          FileFits(at(job.paths[i]), job.files[i].size, DiskAt(before, job.paths[i]).local, DiskAt(s.disks, job.paths[i]), s.workers[i]))
    && (forall p :: p !in job.paths ==> DiskAt(s.disks, p) == DiskAt(before, p))
  }

  /** The parts that a job finds are prefixes of what they are now parts of. */
  ghost predicate NoStaleParts(job: Job, disks: Disks, at: Contents) {
    forall p :: p in job.paths ==> IsPrefix(DiskAt(disks, p).part, at(p))
  }

  lemma StartFits(job: Job, at: Contents, before: Disks, rows: set<string>)
    requires Lawful(job) && DistinctPaths(job) && SizesNotUnderstated(job, at) && NoStaleParts(job, before, at)
    ensures FilesFit(job, at, before, Start(job, before, rows))
  {
  }

  /** A step of one transfer leaves the other files alone. */
  lemma OthersFit(job: Job, at: Contents, before: Disks, s: State, t: State, i: nat)
    requires FilesFit(job, at, before, s) && i < |s.workers| == |t.workers|
    requires ThisFileFits(job, at, before, s, t, i)
    ensures FilesFit(job, at, before, t)
  {
    assert job.paths[i] in job.paths;
    forall j | 0 <= j < |t.workers|
      ensures FileFits(at(job.paths[j]), job.files[j].size, DiskAt(before, job.paths[j]).local, DiskAt(t.disks, job.paths[j]), t.workers[j])
    {
      if j != i {
        assert job.paths[j] != job.paths[i];
        assert DiskAt(t.disks, job.paths[j]) == DiskAt(s.disks, job.paths[j]);
      }
    }
  }

  lemma StepFits(job: Job, at: Contents, before: Disks, s: State, step: Step)
    requires FilesFit(job, at, before, s) && Enabled(job, s, step) && HonestStep(job, at, s, step)
    ensures FilesFit(job, at, before, Do(job, s, step))
  {
    var t := Do(job, s, step);
    if step.Register? || step.Flush? || step.Advance? {
      assert t.workers == s.workers && t.disks == s.disks;
    } else {
      match step {
        case Begin(i) => BeginKeepsFit(job, at, before, s, i);
        case Connect(i, head) => ConnectKeepsFit(job, at, before, s, i, head);
        case Chunk(i, chunk) => ChunkKeepsFit(job, at, before, s, i, chunk);
        case EndBody(i, broken) => EndBodyKeepsFit(job, at, before, s, i, broken);
        case Collect(i) => CollectKeepsFit(job, at, before, s, i);
      }
      OthersFit(job, at, before, s, t, step.i);
    }
  }

  /** The step has changed the worker and the disk of file `i` at most, and left that file fit. */
  ghost predicate ThisFileFits(job: Job, at: Contents, before: Disks, s: State, t: State, i: nat)
    requires |job.paths| == |job.files| == |s.workers| == |t.workers| && i < |s.workers|
  {
    && t.workers == s.workers[i := t.workers[i]]
    && (t.disks == s.disks || t.disks == s.disks[job.paths[i] := DiskAt(t.disks, job.paths[i])])
    && FileFits(at(job.paths[i]), job.files[i].size, DiskAt(before, job.paths[i]).local, DiskAt(t.disks, job.paths[i]), t.workers[i])
  }

  lemma BeginKeepsFit(job: Job, at: Contents, before: Disks, s: State, i: nat)
    requires FilesFit(job, at, before, s) && Enabled(job, s, Begin(i)) && HonestStep(job, at, s, Begin(i))
    ensures ThisFileFits(job, at, before, s, Do(job, s, Begin(i)), i)
  {
    assert FileFits(at(job.paths[i]), job.files[i].size, DiskAt(before, job.paths[i]).local, DiskAt(s.disks, job.paths[i]), s.workers[i]);
  }

  lemma ConnectKeepsFit(job: Job, at: Contents, before: Disks, s: State, i: nat, head: Head)
    requires FilesFit(job, at, before, s) && Enabled(job, s, Connect(i, head)) && HonestStep(job, at, s, Connect(i, head))
    ensures ThisFileFits(job, at, before, s, Do(job, s, Connect(i, head)), i)
  {
    var content, size := at(job.paths[i]), job.files[i].size;
    var original, disk := DiskAt(before, job.paths[i]).local, DiskAt(s.disks, job.paths[i]);
    assert FileFits(content, size, original, disk, s.workers[i]);
    ConnectFits(content, size, original, disk, head);
  }

  lemma ChunkKeepsFit(job: Job, at: Contents, before: Disks, s: State, i: nat, chunk: Bytes)
    requires FilesFit(job, at, before, s) && Enabled(job, s, Chunk(i, chunk)) && HonestStep(job, at, s, Chunk(i, chunk))
    ensures ThisFileFits(job, at, before, s, Do(job, s, Chunk(i, chunk)), i)
  {
    var content, size := at(job.paths[i]), job.files[i].size;
    var original, disk := DiskAt(before, job.paths[i]).local, DiskAt(s.disks, job.paths[i]);
    var w := s.workers[i];
    assert FileFits(content, size, original, disk, w);
    ChunkFits(content, size, original, disk, w, chunk);
    ChunkIsWritten(job, s, Do(job, s, Chunk(i, chunk)), i, chunk);
  }

  lemma ChunkIsWritten(job: Job, s: State, t: State, i: nat, chunk: Bytes)
    requires |job.paths| == |job.files| == |s.workers| && Enabled(job, s, Chunk(i, chunk)) && t == Do(job, s, Chunk(i, chunk))
    ensures t.workers == s.workers[i := s.workers[i].(chunks := s.workers[i].chunks + [chunk])]
    ensures t.disks == s.disks[job.paths[i] := Append(DiskAt(s.disks, job.paths[i]), chunk)]
    ensures DiskAt(t.disks, job.paths[i]) == Append(DiskAt(s.disks, job.paths[i]), chunk)
  {
  }

  lemma EndBodyKeepsFit(job: Job, at: Contents, before: Disks, s: State, i: nat, broken: Option<string>)
    requires FilesFit(job, at, before, s) && Enabled(job, s, EndBody(i, broken)) && HonestStep(job, at, s, EndBody(i, broken))
    ensures ThisFileFits(job, at, before, s, Do(job, s, EndBody(i, broken)), i)
  {
    var content, size := at(job.paths[i]), job.files[i].size;
    var original, disk := DiskAt(before, job.paths[i]).local, DiskAt(s.disks, job.paths[i]);
    assert FileFits(content, size, original, disk, s.workers[i]);
    EndFits(content, size, original, disk, s.workers[i], broken);
  }

  lemma CollectKeepsFit(job: Job, at: Contents, before: Disks, s: State, i: nat)
    requires FilesFit(job, at, before, s) && Enabled(job, s, Collect(i)) && HonestStep(job, at, s, Collect(i))
    ensures ThisFileFits(job, at, before, s, Do(job, s, Collect(i)), i)
  {
    assert FileFits(at(job.paths[i]), job.files[i].size, DiskAt(before, job.paths[i]).local, DiskAt(s.disks, job.paths[i]), s.workers[i]);
  }

  lemma {:induction false} RunFits(job: Job, at: Contents, before: Disks, s: State, steps: seq<Step>)
    requires FilesFit(job, at, before, s) && Possible(job, s, steps) && HonestSteps(job, at, s, steps)
    ensures FilesFit(job, at, before, After(job, s, steps))
    decreases |steps|
  {
    if steps != [] {
      StepFits(job, at, before, s, steps[0]);
      RunFits(job, at, before, Do(job, s, steps[0]), steps[1..]);
    }
  }

  /** A job that may stop, or crash, anywhere. */
  datatype Round = Round(job: Job, steps: seq<Step>)

  ghost predicate HonestRound(at: Contents, disks: Disks, rows: set<string>, r: Round) {
    && Lawful(r.job) && DistinctPaths(r.job) && SizesNotUnderstated(r.job, at)
    && Possible(r.job, Start(r.job, disks, rows), r.steps)
    && HonestSteps(r.job, at, Start(r.job, disks, rows), r.steps)
  }

  /** The disks and the table that a series of jobs, each starting where the last one stopped, leaves. */
  ghost predicate Leads(at: Contents, disks: Disks, rows: set<string>, rounds: seq<Round>, disks': Disks, rows': set<string>)
    decreases |rounds|
  {
    if rounds == [] then disks' == disks && rows' == rows
    else
      && HonestRound(at, disks, rows, rounds[0])
      && var s := After(rounds[0].job, Start(rounds[0].job, disks, rows), rounds[0].steps);
         Leads(at, s.disks, s.books.rows, rounds[1..], disks', rows')
  }

  lemma RoundKeepsPrefixes(at: Contents, disks: Disks, rows: set<string>, r: Round)
    requires PartsArePrefixes(disks, at) && HonestRound(at, disks, rows, r)
    ensures var s := After(r.job, Start(r.job, disks, rows), r.steps);
            PartsArePrefixes(s.disks, at)
            && forall p :: DiskAt(s.disks, p).local == DiskAt(disks, p).local || DiskAt(s.disks, p).local == Some(at(p))
  {
    StartFits(r.job, at, disks, rows);
    RunFits(r.job, at, disks, Start(r.job, disks, rows), r.steps);
    var s := After(r.job, Start(r.job, disks, rows), r.steps);
    forall p ensures IsPrefix(DiskAt(s.disks, p).part, at(p))
      ensures DiskAt(s.disks, p).local == DiskAt(disks, p).local || DiskAt(s.disks, p).local == Some(at(p))
    {
      if p in r.job.paths {
        var i :| 0 <= i < |r.job.paths| && r.job.paths[i] == p;
        assert FileFits(at(p), r.job.files[i].size, DiskAt(disks, p).local, DiskAt(s.disks, p), s.workers[i]);
      }
    }
  }

  /** Over any series of jobs, crashes included: parts stay prefixes, and a file that changes becomes its content. */
  lemma {:induction false} CrashesDoNoHarm(
    at: Contents, disks: Disks, rows: set<string>, rounds: seq<Round>, disks': Disks, rows': set<string>)
    requires PartsArePrefixes(disks, at) && Leads(at, disks, rows, rounds, disks', rows')
    ensures PartsArePrefixes(disks', at)
    ensures forall p :: DiskAt(disks', p).local == DiskAt(disks, p).local || DiskAt(disks', p).local == Some(at(p))
    decreases |rounds|
  {
    if rounds != [] {
      RoundKeepsPrefixes(at, disks, rows, rounds[0]);
      var s := After(rounds[0].job, Start(rounds[0].job, disks, rows), rounds[0].steps);
      CrashesDoNoHarm(at, s.disks, s.books.rows, rounds[1..], disks', rows');
    }
  }

  /** A job and the contents that its server has; the next job may meet others, also under the same local path. */
  datatype Turn = Turn(round: Round, at: Contents)

  ghost predicate LeadsOn(disks: Disks, rows: set<string>, turns: seq<Turn>, disks': Disks, rows': set<string>)
    decreases |turns|
  {
    if turns == [] then disks' == disks && rows' == rows
    else
      var round := turns[0].round;
      && HonestRound(turns[0].at, disks, rows, round) && NoStaleParts(round.job, disks, turns[0].at)
      && var s := After(round.job, Start(round.job, disks, rows), round.steps);
         LeadsOn(s.disks, s.books.rows, turns[1..], disks', rows')
  }

  lemma RoundWritesContents(at: Contents, disks: Disks, rows: set<string>, r: Round, p: string)
    requires HonestRound(at, disks, rows, r) && NoStaleParts(r.job, disks, at)
    ensures var s := After(r.job, Start(r.job, disks, rows), r.steps);
            DiskAt(s.disks, p).local == DiskAt(disks, p).local || (p in r.job.paths && DiskAt(s.disks, p).local == Some(at(p)))
  {
    StartFits(r.job, at, disks, rows);
    RunFits(r.job, at, disks, Start(r.job, disks, rows), r.steps);
    var s := After(r.job, Start(r.job, disks, rows), r.steps);
    if p in r.job.paths {
      var i :| 0 <= i < |r.job.paths| && r.job.paths[i] == p;
      assert FileFits(at(p), r.job.files[i].size, DiskAt(disks, p).local, DiskAt(s.disks, p), s.workers[i]);
    }
  }

  ghost predicate WrittenBy(turns: seq<Turn>, p: string, local: Option<Bytes>) {
    exists k :: 0 <= k < |turns| && p in turns[k].round.job.paths && local == Some(turns[k].at(p))
  }

  /**
   Contents may change between jobs, and names may be used for other files: as long as no job finds a stale part, a local
   file is what it was at first or exactly what the server had when some job downloaded it.
   */
  lemma {:induction false} ChangedContentsDoNoHarm(
    disks: Disks, rows: set<string>, turns: seq<Turn>, disks': Disks, rows': set<string>, p: string)
    requires LeadsOn(disks, rows, turns, disks', rows')
    ensures DiskAt(disks', p).local == DiskAt(disks, p).local || WrittenBy(turns, p, DiskAt(disks', p).local)
    decreases |turns|
  {
    if turns != [] {
      var round := turns[0].round;
      var s := After(round.job, Start(round.job, disks, rows), round.steps);
      RoundWritesContents(turns[0].at, disks, rows, round, p);
      ChangedContentsDoNoHarm(s.disks, s.books.rows, turns[1..], disks', rows', p);
      var local := DiskAt(disks', p).local;
      if WrittenBy(turns[1..], p, local) {
        var k :| 0 <= k < |turns[1..]| && p in turns[1..][k].round.job.paths && local == Some(turns[1..][k].at(p));
        assert turns[k + 1] == turns[1..][k];
      } else if local != DiskAt(disks, p).local {
        assert p in turns[0].round.job.paths && local == Some(turns[0].at(p));
      }
    }
  }

  // ---- What the steps of one transfer amount to ----

  /** The answer that the steps of a transfer have received so far, if they have asked. */
  datatype Heard = Heard(head: Option<Head>, chunks: seq<Bytes>, broken: Option<string>)

  const NOTHING_HEARD := Heard(None, [], None)

  function Hear(h: Heard, step: Step, i: nat): Heard {
    match step
    case Connect(k, head) => if k == i then h.(head := Some(head)) else h
    case Chunk(k, chunk) => if k == i then h.(chunks := h.chunks + [chunk]) else h
    case EndBody(k, broken) => if k == i then h.(broken := broken) else h
    case _ => h
  }

  /** What file `i` receives in a run, after it has received `h`. */
  function HearAll(h: Heard, steps: seq<Step>, i: nat): Heard
    decreases |steps|
  {
    if steps == [] then h else HearAll(Hear(h, steps[0], i), steps[1..], i)
  }

  function AnswerOf(h: Heard): Answer
    requires h.head.Some?
  {
    Answer(h.head.value, h.chunks, h.broken)
  }

  /** A file that started as `start` and has received `h` is where an attempt with that answer would be. */
  predicate Attempted(size: nat, start: Disk, h: Heard, disk: Disk, w: Worker) {
    match w
    case Streaming(from, head, chunks) =>
      && from == start && h == Heard(Some(head), chunks, None)
      && var started := Open(size, head, start);
         started.Receiving? && disk == AppendAll(started.disk, chunks)
    case Finished(o) => h.head.Some? && Attempt(size, AnswerOf(h), start) == Decided(disk, o)
    case Counted(o) => h.head.Some? && Attempt(size, AnswerOf(h), start) == Decided(disk, o)
    case _ => h == NOTHING_HEARD && disk == start
  }

  lemma StepAttempts(job: Job, s: State, step: Step, i: nat, start: Disk, h: Heard)
    requires |job.paths| == |job.files| == |s.workers| && DistinctPaths(job) && i < |s.workers| && Enabled(job, s, step)
    requires Attempted(job.files[i].size, start, h, DiskAt(s.disks, job.paths[i]), s.workers[i])
    ensures var t := Do(job, s, step);
            Attempted(job.files[i].size, start, Hear(h, step, i), DiskAt(t.disks, job.paths[i]), t.workers[i])
  {
    var t := Do(job, s, step);
    if step.Begin? || step.Connect? || step.Chunk? || step.EndBody? || step.Collect? {
      assert step.i != i ==> job.paths[step.i] != job.paths[i];
      assert t.workers == s.workers[step.i := t.workers[step.i]];
      if step.Chunk? && step.i == i {
        var w := s.workers[i];
        AppendAllAppend(Open(job.files[i].size, w.head, start).disk, w.chunks, step.chunk);
      }
    }
  }

  lemma {:induction false} StepsAttempt(job: Job, s: State, steps: seq<Step>, i: nat, start: Disk, h: Heard)
    requires |job.paths| == |job.files| == |s.workers| && DistinctPaths(job) && i < |s.workers| && Possible(job, s, steps)
    requires Attempted(job.files[i].size, start, h, DiskAt(s.disks, job.paths[i]), s.workers[i])
    ensures var t := After(job, s, steps);
            Attempted(job.files[i].size, start, HearAll(h, steps, i), DiskAt(t.disks, job.paths[i]), t.workers[i])
    decreases |steps|
  {
    if steps != [] {
      StepAttempts(job, s, steps[0], i, start, h);
      StepsAttempt(job, Do(job, s, steps[0]), steps[1..], i, start, Hear(h, steps[0], i));
    }
  }

  /**
   In every run, with an honest server or not, and however the steps of the transfers interleave: a transfer that is
   over has left its files and its outcome as one attempt would with the answer that its own steps received.
   */
  lemma StepsAreAnAttempt(job: Job, disks: Disks, rows: set<string>, steps: seq<Step>, i: nat)
    requires Lawful(job) && DistinctPaths(job) && i < |job.files| && Possible(job, Start(job, disks, rows), steps)
    ensures var s := After(job, Start(job, disks, rows), steps);
            var h := HearAll(NOTHING_HEARD, steps, i);
            var path := job.paths[i];
            s.workers[i].Finished? || s.workers[i].Counted? ==>
              && h.head.Some?
              && Attempt(job.files[i].size, AnswerOf(h), DiskAt(disks, path)) == Decided(DiskAt(s.disks, path), s.workers[i].outcome)
  {
    StepsAttempt(job, Start(job, disks, rows), steps, i, DiskAt(disks, job.paths[i]), NOTHING_HEARD);
  }

  /**
   So even when a content has changed since its part was received, or the path has stood for another file: with a true
   size and an honest answer, a downloaded file is the content if and only if the server sent everything or the part
   that the job found was a prefix of it.
   */
  lemma DownloadIsExactIff(job: Job, disks: Disks, rows: set<string>, steps: seq<Step>, i: nat, content: Bytes)
    requires Lawful(job) && DistinctPaths(job) && i < |job.files| && Possible(job, Start(job, disks, rows), steps)
    requires HasDownloaded(After(job, Start(job, disks, rows), steps).workers[i])
    requires content != [] && job.files[i].size == |content|
    requires var h := HearAll(NOTHING_HEARD, steps, i);
             h.head.Some? && HonestAnswer(content, |content|, DiskAt(disks, job.paths[i]), AnswerOf(h))
    ensures var s := After(job, Start(job, disks, rows), steps);
            DiskAt(s.disks, job.paths[i]).local == Some(content) <==>
              || HearAll(NOTHING_HEARD, steps, i).head == Some(Status(200))
              || IsPrefix(UsablePart(|content|, DiskAt(disks, job.paths[i])).part, content)
  {
    StepsAreAnAttempt(job, disks, rows, steps, i);
    PromotionIsExactIff(content, AnswerOf(HearAll(NOTHING_HEARD, steps, i)), DiskAt(disks, job.paths[i]));
  }
}
