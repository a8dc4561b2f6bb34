/** The guards of the two background jobs: start, retry, finish and pipeline requests in any interleaving. */
module JobGuard {
  import opened Text
  import opened Remote
  import Ingestion

  type Files = seq<RemoteFile>

  /** Request threads and the job threads they launch. `retry` is the list of a retry, None for a scan. */
  datatype Thread =
    | AskingRetry
    | Asking(retry: Option<Files>)
    | Claimed(retry: Option<Files>)
    | Working(retry: Option<Files>, files: Files, reported: Files)
    | AskingPipeline
    | ClaimedPipeline
    | RunningPipeline
    | Refused
    | Over

  /** The shared record, the flag of the pipeline, all threads so far, and the failure lists of finished jobs. */
  datatype State = State(
    running: bool, failedFiles: Files, pipelineRunning: bool, threads: seq<Thread>, finished: seq<Files>)

  const IDLE := State(false, [], false, [], [])

  datatype Step =
    | Arrive(thread: Thread)
    | Read(i: nat)
    | Claim(i: nat)
    | Launch(i: nat)
    | Discover(i: nat, found: Files, includeVideos: bool)
    | Report(i: nat, file: RemoteFile)
    | Finish(i: nat)
    | ClaimPipeline(i: nat)
    | LaunchPipeline(i: nat)
    | FinishPipeline(i: nat)

  const VIDEO := ".mp4"

  predicate IsVideo(f: RemoteFile) {
    |f.name| >= 4 && Fold(f.name[|f.name| - 4..]) == VIDEO
  }

  function WithoutVideos(files: Files): Files {
    if files == [] then []
    else
      var n := |files| - 1;
      WithoutVideos(files[..n]) + if IsVideo(files[n]) then [] else [files[n]]
  }

  function Chosen(retry: Option<Files>, found: Files, includeVideos: bool): Files {
    var all := if retry.Some? then retry.value else found;
    if includeVideos then all else WithoutVideos(all)
  }

  predicate EndsWith(s: string, end: string) {
    |s| >= |end| && s[|s| - |end|..] == end
  }

  lemma VideosEndInMp4(f: RemoteFile)
    ensures IsVideo(f) <==> EndsWith(Fold(f.name), ".mp4")
  {
    if |f.name| >= 4 {
      assert Fold(f.name[|f.name| - 4..]) == Fold(f.name)[|f.name| - 4..];
    }
  }

  /** A job takes the files of the retry, or of the scan if it is none, without those whose names end in ".mp4" unless asked for. */
  lemma {:induction false} ChosenIff(retry: Option<Files>, found: Files, includeVideos: bool, f: RemoteFile)
    ensures f in Chosen(retry, found, includeVideos) <==>
            (if retry.Some? then f in retry.value else f in found) && (includeVideos || !EndsWith(Fold(f.name), ".mp4"))
  {
    NoVideosLeft(if retry.Some? then retry.value else found, f);
  }

  lemma {:induction false} NoVideosLeft(files: Files, f: RemoteFile)
    ensures f in WithoutVideos(files) <==> f in files && !EndsWith(Fold(f.name), ".mp4")
  {
    if files != [] {
      var n := |files| - 1;
      NoVideosLeft(files[..n], f);
      VideosEndInMp4(files[n]);
      assert files == files[..n] + [files[n]];
    }
  }

  /** A scan lists every href once, since it collects files in a dictionary; a job collects every transfer once. */
  ghost predicate Enabled(s: State, step: Step) {
    match step
    case Arrive(t) => t == AskingRetry || t == Asking(None) || t == AskingPipeline
    case Read(i) => i < |s.threads| && s.threads[i].AskingRetry?
    case Claim(i) => i < |s.threads| && s.threads[i].Asking?
    case Launch(i) => i < |s.threads| && s.threads[i].Claimed?
    case Discover(i, found, _) =>
      i < |s.threads| && s.threads[i].Working? && s.threads[i].files == [] && s.threads[i].reported == [] && Ingestion.DistinctHrefs(found)
    case Report(i, f) =>
      && i < |s.threads| && s.threads[i].Working? && f in s.threads[i].files
      && forall g :: g in s.threads[i].reported ==> g.href != f.href
    case Finish(i) => i < |s.threads| && s.threads[i].Working?
    case ClaimPipeline(i) => i < |s.threads| && s.threads[i].AskingPipeline?
    case LaunchPipeline(i) => i < |s.threads| && s.threads[i].ClaimedPipeline?
    case FinishPipeline(i) => i < |s.threads| && s.threads[i].RunningPipeline?
  }

  ghost function Do(s: State, step: Step): State
    requires Enabled(s, step)
  {
    match step
    case Arrive(t) => s.(threads := s.threads + [t])
    case Read(i) =>
      s.(threads := s.threads[i := if s.running || s.failedFiles == [] then Refused else Asking(Some(s.failedFiles))])
    case Claim(i) =>
      if s.running then s.(threads := s.threads[i := Refused])
      else s.(running := true, failedFiles := [], threads := s.threads[i := Claimed(s.threads[i].retry)])
    case Launch(i) => s.(threads := s.threads[i := Working(s.threads[i].retry, [], [])])
    case Discover(i, found, includeVideos) =>
      s.(threads := s.threads[i := s.threads[i].(files := Chosen(s.threads[i].retry, found, includeVideos))])
    case Report(i, f) =>
      s.(failedFiles := s.failedFiles + [f], threads := s.threads[i := s.threads[i].(reported := s.threads[i].reported + [f])])
    case Finish(i) => s.(running := false, threads := s.threads[i := Over], finished := s.finished + [s.failedFiles])
    case ClaimPipeline(i) =>
      if s.pipelineRunning then s.(threads := s.threads[i := Refused])
      else s.(pipelineRunning := true, threads := s.threads[i := ClaimedPipeline])
    case LaunchPipeline(i) => s.(threads := s.threads[i := RunningPipeline])
    case FinishPipeline(i) => s.(pipelineRunning := false, threads := s.threads[i := Over])
  }

  // ---- Invariants ----

  predicate Busy(t: Thread) {
    t.Claimed? || t.Working?
  }

  predicate BusyPipeline(t: Thread) {
    t.ClaimedPipeline? || t.RunningPipeline?
  }

  /** One thread at most is busy, and the flag says whether there is one. */
  ghost predicate Exclusive(threads: seq<Thread>, busy: Thread -> bool, flag: bool) {
    && (forall i, j :: 0 <= i < j < |threads| ==> !(busy(threads[i]) && busy(threads[j])))
    && (flag <==> Occupied(threads, busy))
  }

  ghost predicate Occupied(threads: seq<Thread>, busy: Thread -> bool) {
    exists i :: 0 <= i < |threads| && busy(threads[i])
  }

  /** A retry's list is one that a finished job recorded. */
  ghost predicate Recorded(finished: seq<Files>, t: Thread) {
    (t.Asking? || t.Claimed? || t.Working?) && t.retry.Some? ==> t.retry.value in finished
  }

  /** The record is that of the working thread; between jobs it is that of the last one. */
  ghost predicate Owned(s: State, t: Thread) {
    && (t.Claimed? ==> s.failedFiles == [])
    && (t.Working? ==> t.reported == s.failedFiles && Ingestion.DistinctHrefs(t.files) && forall f :: f in t.reported ==> f in t.files)
  }

  ghost predicate Guarded(s: State) {
    && Exclusive(s.threads, Busy, s.running)
    && Exclusive(s.threads, BusyPipeline, s.pipelineRunning)
    && (forall i :: 0 <= i < |s.threads| ==> Recorded(s.finished, s.threads[i]) && Owned(s, s.threads[i]))
    && (forall l :: l in s.finished ==> Ingestion.DistinctHrefs(l))
    && Ingestion.DistinctHrefs(s.failedFiles)
    && (!s.running ==> s.failedFiles == if s.finished == [] then [] else s.finished[|s.finished| - 1])
  }

  lemma ExclusiveAppend(threads: seq<Thread>, busy: Thread -> bool, flag: bool, t: Thread)
    requires Exclusive(threads, busy, flag) && !busy(t)
    ensures Exclusive(threads + [t], busy, flag)
  {
    if Occupied(threads, busy) {
      var i :| 0 <= i < |threads| && busy(threads[i]);
      assert (threads + [t])[i] == threads[i];
    }
  }

  lemma ExclusiveUpdate(threads: seq<Thread>, busy: Thread -> bool, flag: bool, i: nat, t: Thread, flag': bool)
    requires Exclusive(threads, busy, flag) && i < |threads|
    requires (busy(t) == busy(threads[i]) && flag' == flag)
             || (!busy(threads[i]) && !flag && busy(t) && flag')
             || (busy(threads[i]) && !busy(t) && !flag')
    ensures Exclusive(threads[i := t], busy, flag')
  {
    var next := threads[i := t];
    assert next[i] == t;
    if flag' && !busy(t) {
      var k :| 0 <= k < |threads| && busy(threads[k]);
      assert next[k] == threads[k];
    }
    assert forall k :: 0 <= k < |threads| && busy(threads[k]) ==> Occupied(threads, busy);
  }

  lemma {:induction false} WithoutVideosKeepsHrefs(files: Files)
    requires Ingestion.DistinctHrefs(files)
    ensures Ingestion.DistinctHrefs(WithoutVideos(files))
    ensures forall f :: f in WithoutVideos(files) <==> f in files && !IsVideo(f)
  {
    if files != [] {
      var n := |files| - 1;
      WithoutVideosKeepsHrefs(files[..n]);
      assert files == files[..n] + [files[n]];
      forall f | f in files[..n] ensures f.href != files[n].href {
      }
    }
  }

  lemma StepKeepsGuards(s: State, step: Step)
    requires Guarded(s) && Enabled(s, step)
    ensures Exclusive(Do(s, step).threads, Busy, Do(s, step).running)
    ensures Exclusive(Do(s, step).threads, BusyPipeline, Do(s, step).pipelineRunning)
  {
    var next := Do(s, step);
    if step.Arrive? {
      ExclusiveAppend(s.threads, Busy, s.running, step.thread);
      ExclusiveAppend(s.threads, BusyPipeline, s.pipelineRunning, step.thread);
    } else {
      var t := next.threads[step.i];
      assert next.threads == s.threads[step.i := t];
      ExclusiveUpdate(s.threads, Busy, s.running, step.i, t, next.running);
      ExclusiveUpdate(s.threads, BusyPipeline, s.pipelineRunning, step.i, t, next.pipelineRunning);
    }
  }

  lemma StepKeepsOwnership(s: State, step: Step)
    requires Guarded(s) && Enabled(s, step)
    ensures var next := Do(s, step);
            forall i :: 0 <= i < |next.threads| ==> Recorded(next.finished, next.threads[i]) && Owned(next, next.threads[i])
  {
    var next := Do(s, step);
    match step
    case Arrive(_) =>
    case Discover(i, found, includeVideos) => DiscoverChooses(s, i, found, includeVideos);
    case Claim(i) => if !s.running { NobodyBusy(s); }
    case Finish(i) => OnlyOneBusy(s, i);
    case Report(i, f) => OnlyOneBusy(s, i);
    case _ =>
  }

  lemma DiscoverChooses(s: State, i: nat, found: Files, includeVideos: bool)
    requires Guarded(s) && Enabled(s, Discover(i, found, includeVideos))
    ensures Ingestion.DistinctHrefs(Chosen(s.threads[i].retry, found, includeVideos))
  {
    assert Recorded(s.finished, s.threads[i]);
    var retry := s.threads[i].retry;
    WithoutVideosKeepsHrefs(if retry.Some? then retry.value else found);
  }

  lemma NobodyBusy(s: State)
    requires Guarded(s) && !s.running
    ensures forall i :: 0 <= i < |s.threads| ==> !Busy(s.threads[i])
  {
    if i :| 0 <= i < |s.threads| && Busy(s.threads[i]) {
      assert Occupied(s.threads, Busy);
    }
  }

  lemma OnlyOneBusy(s: State, i: nat)
    requires Guarded(s) && i < |s.threads| && Busy(s.threads[i])
    ensures s.running && forall j :: 0 <= j < |s.threads| && j != i ==> !Busy(s.threads[j])
  {
    assert Occupied(s.threads, Busy);
  }

  lemma StepKeepsLists(s: State, step: Step)
    requires Guarded(s) && Enabled(s, step)
    ensures var next := Do(s, step);
            && (forall l :: l in next.finished ==> Ingestion.DistinctHrefs(l))
            && Ingestion.DistinctHrefs(next.failedFiles)
            && (!next.running ==> next.failedFiles == if next.finished == [] then [] else next.finished[|next.finished| - 1])
  {
    if step.Report? {
      OnlyOneBusy(s, step.i);
      assert Owned(s, s.threads[step.i]);
    } else if step.Discover? || step.Launch? {
      OnlyOneBusy(s, step.i);
    }
  }

  lemma StepKeeps(s: State, step: Step)
    requires Guarded(s) && Enabled(s, step)
    ensures Guarded(Do(s, step))
  {
    StepKeepsGuards(s, step);
    StepKeepsOwnership(s, step);
    StepKeepsLists(s, step);
  }

  ghost predicate Possible(s: State, steps: seq<Step>)
    decreases |steps|
  {
    steps == [] || (Enabled(s, steps[0]) && Possible(Do(s, steps[0]), steps[1..]))
  }

  ghost function After(s: State, steps: seq<Step>): State
    requires Possible(s, steps)
    decreases |steps|
  {
    if steps == [] then s else After(Do(s, steps[0]), steps[1..])
  }

  lemma {:induction false} RunKeeps(s: State, steps: seq<Step>)
    requires Guarded(s) && Possible(s, steps)
    ensures Guarded(After(s, steps))
    decreases |steps|
  {
    if steps != [] {
      StepKeeps(s, steps[0]);
      RunKeeps(Do(s, steps[0]), steps[1..]);
    }
  }

  // ---- Over all runs ----

  /** Never two download jobs and never two pipelines, and each flag says exactly whether there is one. */
  lemma OneJobAtATime(steps: seq<Step>)
    requires Possible(IDLE, steps)
    ensures var s := After(IDLE, steps);
            && (forall i, j :: 0 <= i < j < |s.threads| ==> !(Busy(s.threads[i]) && Busy(s.threads[j])))
            && (forall i, j :: 0 <= i < j < |s.threads| ==> !(BusyPipeline(s.threads[i]) && BusyPipeline(s.threads[j])))
            && (s.running <==> Occupied(s.threads, Busy))
            && (s.pipelineRunning <==> Occupied(s.threads, BusyPipeline))
  {
    RunKeeps(IDLE, steps);
  }

  /** A claim resets the record exactly when no job is live, and is refused otherwise. */
  lemma ResetOnlyWhenNobodyWorks(steps: seq<Step>, i: nat)
    requires Possible(IDLE, steps) && Enabled(After(IDLE, steps), Claim(i))
    ensures var s := After(IDLE, steps);
            && (Do(s, Claim(i)).threads[i].Claimed? <==> forall j :: 0 <= j < |s.threads| ==> !Busy(s.threads[j]))
            && (!Do(s, Claim(i)).threads[i].Claimed? ==> Do(s, Claim(i)).threads[i] == Refused)
  {
    RunKeeps(IDLE, steps);
    var s := After(IDLE, steps);
    if !s.running {
      NobodyBusy(s);
    }
  }

  /** So with the pipeline; and whoever is not let in is turned away for good. */
  lemma PipelineRunsUnlessOneDoes(steps: seq<Step>, i: nat)
    requires Possible(IDLE, steps) && Enabled(After(IDLE, steps), ClaimPipeline(i))
    ensures var s := After(IDLE, steps);
            var t := Do(s, ClaimPipeline(i)).threads[i];
            && (t.ClaimedPipeline? <==> forall j :: 0 <= j < |s.threads| ==> !BusyPipeline(s.threads[j]))
            && (!t.ClaimedPipeline? ==> t == Refused)
  {
    RunKeeps(IDLE, steps);
    var s := After(IDLE, steps);
    if !s.pipelineRunning {
      forall j | 0 <= j < |s.threads| ensures !BusyPipeline(s.threads[j]) {
      }
    }
  }

  /** Every retry works on a list that a finished job recorded, and no list, however often retried, has an href twice. */
  lemma RetriesAreRecorded(steps: seq<Step>, i: nat)
    requires Possible(IDLE, steps) && i < |After(IDLE, steps).threads|
    ensures var s := After(IDLE, steps);
            var t := s.threads[i];
            && ((t.Asking? || t.Claimed? || t.Working?) && t.retry.Some? ==> t.retry.value in s.finished && Ingestion.DistinctHrefs(t.retry.value))
            && (t.Working? ==> Ingestion.DistinctHrefs(t.files) && t.reported == s.failedFiles && forall f :: f in t.reported ==> f in t.files)
            && Ingestion.DistinctHrefs(s.failedFiles)
  {
    RunKeeps(IDLE, steps);
    assert Recorded(After(IDLE, steps).finished, After(IDLE, steps).threads[i]);
    assert Owned(After(IDLE, steps), After(IDLE, steps).threads[i]);
  }

  /** A retry reads the list of the last finished job, if it is not refused. */
  lemma RetryReadsTheLastList(steps: seq<Step>, i: nat)
    requires Possible(IDLE, steps) && Enabled(After(IDLE, steps), Read(i))
    ensures var s := After(IDLE, steps);
            var t := Do(s, Read(i)).threads[i];
            t.Asking? ==> s.finished != [] && t.retry == Some(s.finished[|s.finished| - 1])
  {
    RunKeeps(IDLE, steps);
  }

  // ---- What happens between the reading of a retry and its start ----

  /** The start that a step grants. */
  ghost predicate Grants(s: State, step: Step) {
    step.Claim? && !s.running
  }

  /** How many starts a run grants. */
  ghost function Granted(s: State, steps: seq<Step>): nat
    requires Possible(s, steps)
    decreases |steps|
  {
    if steps == [] then 0 else (if Grants(s, steps[0]) then 1 else 0) + Granted(Do(s, steps[0]), steps[1..])
  }

  predicate IsPrefixOf(short: seq<Files>, long: seq<Files>) {
    |short| <= |long| && long[..|short|] == short
  }

  function Running(s: State): nat {
    if s.running then 1 else 0
  }

  /** The lists of finished jobs only grow, and every start that is granted ends with one unless it is still running. */
  lemma {:induction false} EveryStartFinishes(s: State, steps: seq<Step>)
    requires Guarded(s) && Possible(s, steps)
    ensures var t := After(s, steps);
            && IsPrefixOf(s.finished, t.finished)
            && |t.finished| + Running(t) == |s.finished| + Running(s) + Granted(s, steps)
    decreases |steps|
  {
    if steps != [] {
      var next := Do(s, steps[0]);
      StepKeeps(s, steps[0]);
      if steps[0].Finish? {
        OnlyOneBusy(s, steps[0].i);
      }
      assert IsPrefixOf(s.finished, next.finished);
      EveryStartFinishes(next, steps[1..]);
      PrefixChain(s.finished, next.finished, After(s, steps).finished);
    }
  }

  lemma PrefixChain(a: seq<Files>, b: seq<Files>, c: seq<Files>)
    requires IsPrefixOf(a, b) && IsPrefixOf(b, c)
    ensures IsPrefixOf(a, c)
  {
    assert c[..|a|] == c[..|b|][..|a|];
  }

  /** A thread that has read its list keeps it until it asks to start. */
  lemma {:induction false} ListIsKept(s: State, steps: seq<Step>, i: nat)
    requires Possible(s, steps) && i < |s.threads|
    requires i < |After(s, steps).threads| && After(s, steps).threads[i].Asking? && s.threads[i].Asking?
    ensures After(s, steps).threads[i] == s.threads[i]
    decreases |steps|
  {
    if steps != [] {
      var next := Do(s, steps[0]);
      if !next.threads[i].Asking? {
        NeverAsksAgain(next, steps[1..], i);
      } else {
        ListIsKept(next, steps[1..], i);
      }
    }
  }

  lemma {:induction false} NeverAsksAgain(s: State, steps: seq<Step>, i: nat)
    requires Possible(s, steps) && i < |s.threads| && !s.threads[i].Asking? && !s.threads[i].AskingRetry?
    ensures i < |After(s, steps).threads| && !After(s, steps).threads[i].Asking? && !After(s, steps).threads[i].AskingRetry?
    decreases |steps|
  {
    if steps != [] {
      NeverAsksAgain(Do(s, steps[0]), steps[1..], i);
    }
  }

  lemma {:induction false} StepsInTurn(s: State, a: seq<Step>, b: seq<Step>)
    requires Possible(s, a) && Possible(After(s, a), b)
    ensures Possible(s, a + b) && After(s, a + b) == After(After(s, a), b)
    decreases |a|
  {
    if a == [] {
      assert a + b == b;
    } else {
      StepsInTurn(Do(s, a[0]), a[1..], b);
      assert (a + b)[0] == a[0] && (a + b)[1..] == a[1..] + b;
    }
  }

  lemma OneStep(s: State, step: Step)
    requires Enabled(s, step)
    ensures Possible(s, [step]) && After(s, [step]) == Do(s, step)
  {
    assert [step][1..] == [];
    assert Possible(Do(s, step), []);
  }

  /** In a run from the start: thread `i` reads its list, other steps follow, and then its start is granted. */
  ghost predicate RetryRun(before: seq<Step>, between: seq<Step>, i: nat) {
    && Possible(IDLE, before) && Enabled(After(IDLE, before), Read(i))
    && var read := Do(After(IDLE, before), Read(i));
       && read.threads[i].Asking? && Possible(read, between)
       && var s := After(read, between);
          Enabled(s, Claim(i)) && !s.running
  }

  /** The jobs that finish between the reading and the start. */
  ghost function FinishedBetween(before: seq<Step>, between: seq<Step>, i: nat): seq<Files>
    requires RetryRun(before, between, i)
  {
    var read := Do(After(IDLE, before), Read(i));
    var s := After(read, between);
    if |read.finished| <= |s.finished| then s.finished[|read.finished|..] else []
  }

  /**
   A retry that is granted works on the list that it has read, which is the list of the job numbered `read.finished - 1`.
   This is the latest finished job if and only if no other start was granted since.
   */
  lemma RetryIsCurrentIff(before: seq<Step>, between: seq<Step>, i: nat)
    requires RetryRun(before, between, i)
    ensures var read := Do(After(IDLE, before), Read(i));
            var s := After(read, between);
            && read.finished != [] && s.finished == read.finished + FinishedBetween(before, between, i)
            && Do(s, Claim(i)).threads[i] == Claimed(Some(s.finished[|read.finished| - 1]))
            && (|read.finished| - 1 == |s.finished| - 1 <==> Granted(read, between) == 0)
  {
    RunKeeps(IDLE, before);
    var asked := After(IDLE, before);
    StepKeeps(asked, Read(i));
    var read := Do(asked, Read(i));
    var s := After(read, between);
    EveryStartFinishes(read, between);
    ListIsKept(read, between, i);
    assert s.finished == s.finished[..|read.finished|] + s.finished[|read.finished|..];
  }

  /** A whole job of a scan that finds one photo and fails to download it. */
  function FailingJob(i: nat, f: RemoteFile): seq<Step> {
    [Arrive(Asking(None)), Claim(i), Launch(i)] + [Discover(i, [f], true), Report(i, f), Finish(i)]
  }

  lemma FailingJobRuns(s: State, f: RemoteFile)
    requires !s.running
    ensures Possible(s, FailingJob(|s.threads|, f))
    ensures After(s, FailingJob(|s.threads|, f)) ==
            s.(failedFiles := [f], threads := s.threads + [Over], finished := s.finished + [[f]])
  {
    var i := |s.threads|;
    var s1 := Do(s, Arrive(Asking(None)));
    var s2 := Do(s1, Claim(i));
    var s3 := Do(s2, Launch(i));
    OneStep(s2, Launch(i));
    OneStep(s1, Claim(i));
    OneStep(s, Arrive(Asking(None)));
    StepsInTurn(s1, [Claim(i)], [Launch(i)]);
    StepsInTurn(s, [Arrive(Asking(None))], [Claim(i)] + [Launch(i)]);
    assert [Arrive(Asking(None))] + ([Claim(i)] + [Launch(i)]) == [Arrive(Asking(None)), Claim(i), Launch(i)];
    assert s3.threads == s.threads + [Working(None, [], [])];
    LastHalfRuns(s, s3, i, f);
    StepsInTurn(s, [Arrive(Asking(None)), Claim(i), Launch(i)], [Discover(i, [f], true), Report(i, f), Finish(i)]);
  }

  lemma LastHalfRuns(s: State, s3: State, i: nat, f: RemoteFile)
    requires i == |s.threads| && s3 == s.(running := true, failedFiles := [], threads := s.threads + [Working(None, [], [])])
    ensures var steps := [Discover(i, [f], true), Report(i, f), Finish(i)];
            && Possible(s3, steps)
            && After(s3, steps) == s.(running := false, failedFiles := [f], threads := s.threads + [Over], finished := s.finished + [[f]])
  {
    var s4 := Do(s3, Discover(i, [f], true));
    assert s4 == s3.(threads := s.threads + [Working(None, [f], [])]);
    var s5 := Do(s4, Report(i, f));
    assert [] + [f] == [f];
    assert s5 == s3.(failedFiles := [f], threads := s.threads + [Working(None, [f], [f])]);
    var s6 := Do(s5, Finish(i));
    assert s6.threads == s.threads + [Over];
    OneStep(s5, Finish(i));
    OneStep(s4, Report(i, f));
    OneStep(s3, Discover(i, [f], true));
    StepsInTurn(s4, [Report(i, f)], [Finish(i)]);
    StepsInTurn(s3, [Discover(i, [f], true)], [Report(i, f)] + [Finish(i)]);
    assert [Discover(i, [f], true)] + ([Report(i, f)] + [Finish(i)]) == [Discover(i, [f], true), Report(i, f), Finish(i)];
  }

  /**
   A run from the start in which the list is not that of the latest job: one job fails on `f`, a retry reads its list,
   another job comes in between and fails on `g`, and the retry that is then granted works on `f`.
   */
  lemma RetryMayLagBehind(f: RemoteFile, g: RemoteFile)
    requires f != g
    ensures var before := FailingJob(0, f) + [Arrive(AskingRetry)];
            var between := FailingJob(2, g);
            && RetryRun(before, between, 1)
            && var s := After(Do(After(IDLE, before), Read(1)), between);
               s.finished == [[f], [g]] && Do(s, Claim(1)).threads[1] == Claimed(Some([f]))
  {
    FailingJobRuns(IDLE, f);
    var done := After(IDLE, FailingJob(0, f));
    OneStep(done, Arrive(AskingRetry));
    StepsInTurn(IDLE, FailingJob(0, f), [Arrive(AskingRetry)]);
    var asked := Do(done, Arrive(AskingRetry));
    var read := Do(asked, Read(1));
    FailingJobRuns(read, g);
  }

  /** `PipelineManager`: the flag, claimed by a request and given back when the thread ends. */
  class PipelineManager {
    var running: bool

    constructor ()
      ensures !running
    {
      running := false;
    }

    /** `run`, up to the start of the thread; false stands for the exception of a second run. */
    method Run(ghost s: State, ghost i: nat) returns (started: bool)
      requires s.pipelineRunning == running && Enabled(s, ClaimPipeline(i))
      modifies this
      ensures running == Do(s, ClaimPipeline(i)).pipelineRunning
      ensures started == Do(s, ClaimPipeline(i)).threads[i].ClaimedPipeline?
    {
      if running {
        return false;
      }
      running := true;
      started := true;
    }
  }
}
