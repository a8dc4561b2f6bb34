/**
 `LogBroadcaster` and its WebSocket subscribers: the object itself, and every interleaving of its emitters with
 clients that subscribe, replay and leave.
 */
module LogStream {
  import opened Text

  const MAX_LINES := 2000

  /** The last `MAX_LINES` elements. */
  function Keep<T>(s: seq<T>): seq<T> {
    if |s| > MAX_LINES then s[|s| - MAX_LINES..] else s
  }

  class Queue {
    var items: seq<string>

    constructor ()
      ensures items == []
    {
      items := [];
    }
  }

  class LogBroadcaster {
    var lines: seq<string>
    var listeners: set<Queue>

    constructor ()
      ensures lines == [] && listeners == {}
    {
      lines, listeners := [], {};
    }

    /** The locked part of `emit`. */
    method AppendLine(text: string)
      modifies this`lines
      ensures lines == Keep(old(lines) + [text])
    {
      lines := lines + [text];
      if |lines| > MAX_LINES {
        lines := lines[|lines| - MAX_LINES..];
      }
    }

    /** `emit` without interruption: one more line in the buffer, and the same line at the end of every queue. */
    method Emit(text: string)
      modifies this`lines, listeners
      ensures lines == Keep(old(lines) + [text])
      ensures listeners == old(listeners)
      ensures forall q :: q in listeners ==> q.items == old(q.items) + [text]
    {
      AppendLine(text);
      var todo := listeners;
      while todo != {}
        invariant todo <= listeners
        invariant lines == Keep(old(lines) + [text])
        invariant forall q :: q in listeners ==> q.items == if q in todo then old(q.items) else old(q.items) + [text]
        decreases todo
        modifies listeners
      {
        var q :| q in todo;
        q.items := q.items + [text];
        todo := todo - {q};
      }
    }

    method Subscribe(q: Queue)
      modifies this`listeners
      ensures listeners == old(listeners) + {q}
    {
      listeners := listeners + {q};
    }

    method Unsubscribe(q: Queue)
      modifies this`listeners
      ensures listeners == old(listeners) - {q}
    {
      listeners := listeners - {q};
    }

    method Replay() returns (snapshot: seq<string>)
      ensures snapshot == lines
    {
      snapshot := lines;
    }

    method Clear()
      modifies this`lines
      ensures lines == []
    {
      lines := [];
    }
  }

  // ---- Interleavings ----

  /** Where an `emit` stands between its two halves: the line is buffered, or it is being put into queues. */
  datatype EmitPhase = Appended | Fanning(targets: set<nat>)

  /** A client's replay: the lines it got, and which lines of the log these are. */
  datatype Snapshot = Snapshot(lines: seq<string>, from: nat, upTo: nat)

  /**
   A client: how long the log was when it subscribed, which lines were buffered then and not yet on their way to any
   queue, its replay, and the lines put into its queue.
   */
  datatype Client = Client(joined: nat, early: set<nat>, left: bool, replay: Option<Snapshot>, received: seq<nat>)

  /** `log` is every line ever emitted, in the order of the lock; a line is known by its position in it. */
  datatype State = State(
    log: seq<string>,
    cleared: nat,
    lines: seq<string>,
    listeners: set<nat>,
    emits: map<nat, EmitPhase>,
    clients: map<nat, Client>)

  datatype Step =
    | AppendStep(text: string)
    | CopyListeners(line: nat)
    | PutStep(line: nat, client: nat)
    | EmitDone(line: nat)
    | SubscribeStep(client: nat)
    | ReplayStep(client: nat)
    | UnsubscribeStep(client: nat)
    | ClearStep

  predicate Enabled(s: State, step: Step) {
    match step
    case AppendStep(_) => true
    case CopyListeners(i) => i in s.emits && s.emits[i].Appended?
    case PutStep(i, q) => i in s.emits && s.emits[i].Fanning? && q in s.emits[i].targets && q in s.clients
    case EmitDone(i) => i in s.emits && s.emits[i] == Fanning({})
    case SubscribeStep(q) => q !in s.clients
    case ReplayStep(q) => q in s.clients && s.clients[q].replay.None?
    case UnsubscribeStep(q) => q in s.clients
    case ClearStep => true
  }

  /** The first line of the log that the buffer still holds. */
  function Start(s: State): nat
    requires s.cleared <= |s.log|
  {
    if |s.log| - s.cleared > MAX_LINES then |s.log| - MAX_LINES else s.cleared
  }

  /** The lines whose emit has not yet copied the listeners. */
  function Undecided(s: State): set<nat> {
    set i | i in s.emits && s.emits[i].Appended?
  }

  function Do(s: State, step: Step): State
    requires s.cleared <= |s.log| && Enabled(s, step)
  {
    match step
    case AppendStep(text) =>
      s.(log := s.log + [text], lines := Keep(s.lines + [text]), emits := s.emits[|s.log| := Appended])
    case CopyListeners(i) => s.(emits := s.emits[i := Fanning(s.listeners)])
    case PutStep(i, q) =>
      s.(emits := s.emits[i := Fanning(s.emits[i].targets - {q})],
         clients := s.clients[q := s.clients[q].(received := s.clients[q].received + [i])])
    case EmitDone(i) => s.(emits := s.emits - {i})
    case SubscribeStep(q) =>
      s.(listeners := s.listeners + {q}, clients := s.clients[q := Client(|s.log|, Undecided(s), false, None, [])])
    case ReplayStep(q) =>
      s.(clients := s.clients[q := s.clients[q].(replay := Some(Snapshot(s.lines, Start(s), |s.log|)))])
    case UnsubscribeStep(q) =>
      s.(listeners := s.listeners - {q}, clients := s.clients[q := s.clients[q].(left := true)])
    case ClearStep => s.(lines := [], cleared := |s.log|)
  }

  const INITIAL := State([], 0, [], {}, map[], map[])

  /** The steps can be taken one after the other, from the start. */
  ghost predicate Possible(steps: seq<Step>) {
    steps != [] ==>
      var init, last := steps[..|steps| - 1], steps[|steps| - 1];
      Possible(init) && After(init).cleared <= |After(init).log| && Enabled(After(init), last)
  }

  ghost function After(steps: seq<Step>): State {
    if steps == [] then INITIAL
    else
      var init, last := After(steps[..|steps| - 1]), steps[|steps| - 1];
      if init.cleared <= |init.log| && Enabled(init, last) then Do(init, last) else init
  }

  // ---- Invariants ----

  /** The line is still on its way to the client. */
  predicate InFlight(s: State, i: nat, q: nat) {
    i in s.emits && (s.emits[i].Appended? || q in s.emits[i].targets)
  }

  /** The buffer is exactly the last `MAX_LINES` lines since the last clear. */
  ghost predicate BufferIsTail(s: State) {
    s.cleared <= |s.log| && s.lines == Keep(s.log[s.cleared..])
  }

  ghost predicate ClientInv(s: State, q: nat)
    requires q in s.clients
  {
    var c := s.clients[q];
    && c.joined <= |s.log|
    && (!c.left ==> q in s.listeners)
    && (forall i :: i in c.received ==> i < |s.log| && !InFlight(s, i, q))
    && (forall i, j :: 0 <= i < j < |c.received| ==> c.received[i] != c.received[j])
    && (forall i :: i in c.early ==> i < c.joined)
    && (forall i: nat :: i in c.received || InFlight(s, i, q) ==> c.joined <= i < |s.log| || i in c.early)
    && (!c.left ==> forall i: nat :: c.joined <= i < |s.log| || i in c.early ==> i in c.received || InFlight(s, i, q))
    && (c.replay.Some? ==>
          var r := c.replay.value;
          r.from <= r.upTo <= |s.log| && c.joined <= r.upTo && r.lines == s.log[r.from..r.upTo])
  }

  ghost predicate Valid(s: State) {
    && BufferIsTail(s)
    && (forall i :: i in s.emits ==> i < |s.log| && (s.emits[i].Fanning? ==> s.emits[i].targets <= s.clients.Keys))
    && s.listeners <= s.clients.Keys
    && (forall q :: q in s.clients ==> ClientInv(s, q))
  }

  lemma BufferLines(s: State)
    requires BufferIsTail(s)
    ensures s.lines == s.log[Start(s)..]
  {
  }

  lemma AppendKeepsBuffer(s: State, text: string)
    requires BufferIsTail(s)
    ensures BufferIsTail(Do(s, AppendStep(text)))
  {
    assert (s.log + [text])[s.cleared..] == s.log[s.cleared..] + [text];
  }

  /** A snapshot stays a part of a log that only grows. */
  lemma SnapshotStays(log: seq<string>, text: string, r: Snapshot)
    requires r.from <= r.upTo <= |log| && r.lines == log[r.from..r.upTo]
    ensures r.lines == (log + [text])[r.from..r.upTo]
  {
  }

  lemma AppendKeepsClient(s: State, text: string, q: nat)
    requires Valid(s) && q in s.clients
    ensures ClientInv(Do(s, AppendStep(text)), q)
  {
    if s.clients[q].replay.Some? {
      SnapshotStays(s.log, text, s.clients[q].replay.value);
    }
  }

  lemma ReplayKeepsClient(s: State, p: nat, q: nat)
    requires Valid(s) && Enabled(s, ReplayStep(p)) && q in s.clients
    ensures ClientInv(Do(s, ReplayStep(p)), q)
  {
    BufferLines(s);
    assert s.log[Start(s)..] == s.log[Start(s)..|s.log|];
  }

  lemma PutKeepsClient(s: State, i: nat, p: nat, q: nat)
    requires Valid(s) && Enabled(s, PutStep(i, p)) && q in s.clients
    ensures ClientInv(Do(s, PutStep(i, p)), q)
  {
    if p == q {
      assert InFlight(s, i, q) && i !in s.clients[q].received;
    }
  }

  lemma ClientKept(s: State, step: Step, q: nat)
    requires Valid(s) && Enabled(s, step) && q in s.clients
    ensures ClientInv(Do(s, step), q)
  {
    match step
    case AppendStep(text) => AppendKeepsClient(s, text, q);
    case PutStep(i, p) => PutKeepsClient(s, i, p, q);
    case ReplayStep(p) => ReplayKeepsClient(s, p, q);
    case _ =>
  }

  lemma StepKeepsValid(s: State, step: Step)
    requires Valid(s) && Enabled(s, step)
    ensures Valid(Do(s, step))
  {
    var t := Do(s, step);
    if step.AppendStep? {
      AppendKeepsBuffer(s, step.text);
    }
    forall q | q in t.clients ensures ClientInv(t, q) {
      if q in s.clients {
        ClientKept(s, step, q);
      }
    }
  }

  lemma {:induction false} RunsAreValid(steps: seq<Step>)
    requires Possible(steps)
    ensures Valid(After(steps))
  {
    if steps != [] {
      RunsAreValid(steps[..|steps| - 1]);
      StepKeepsValid(After(steps[..|steps| - 1]), steps[|steps| - 1]);
    }
  }

  /** In every interleaving the buffer holds exactly the last min(2000, n) of the n lines since the last clear. */
  lemma BufferIsAlwaysTheTail(steps: seq<Step>)
    requires Possible(steps)
    ensures var s := After(steps);
            && s.cleared <= |s.log|
            && |s.lines| == (if |s.log| - s.cleared < 2000 then |s.log| - s.cleared else 2000)
            && s.lines == s.log[|s.log| - |s.lines|..]
  {
    RunsAreValid(steps);
  }

  /** The client has left when the log had `n` lines, and no later line is in its queue or on the way there. */
  ghost predicate GoneSince(s: State, q: nat, n: nat) {
    && q in s.clients && q !in s.listeners && n <= |s.log|
    && (forall i :: i in s.emits && i >= n && s.emits[i].Fanning? ==> q !in s.emits[i].targets)
    && (forall i :: i in s.clients[q].received ==> i < n)
  }

  lemma StepKeepsGone(s: State, step: Step, q: nat, n: nat)
    requires Valid(s) && Enabled(s, step) && GoneSince(s, q, n)
    ensures GoneSince(Do(s, step), q, n)
  {
  }

  lemma {:induction false} RunKeepsGone(steps: seq<Step>, q: nat, more: seq<Step>)
    requires Possible(steps + [UnsubscribeStep(q)] + more)
    ensures GoneSince(After(steps + [UnsubscribeStep(q)] + more), q, |After(steps).log|)
    decreases |more|
  {
    var all := steps + [UnsubscribeStep(q)] + more;
    var n := |all| - 1;
    if more == [] {
      assert all[..n] == steps && all[n] == UnsubscribeStep(q);
      RunsAreValid(steps);
    } else {
      var init := more[..|more| - 1];
      assert all[..n] == steps + [UnsubscribeStep(q)] + init && all[n] == more[|more| - 1];
      RunKeepsGone(steps, q, init);
      RunsAreValid(all[..n]);
      StepKeepsGone(After(all[..n]), all[n], q, |After(steps).log|);
    }
  }

  /** After a client has unsubscribed, its queue gets no line that is emitted later, however the steps interleave. */
  lemma NothingAfterLeaving(steps: seq<Step>, q: nat, more: seq<Step>, i: nat)
    requires Possible(steps + [UnsubscribeStep(q)] + more)
    requires var s := After(steps + [UnsubscribeStep(q)] + more); q in s.clients && i in s.clients[q].received
    ensures i < |After(steps).log|
  {
    RunKeepsGone(steps, q, more);
  }

  /**
   In every interleaving, a connected client that has replayed misses no line: each is in its replay, in its queue
   (once), or still being put there, unless it was emitted before the client subscribed and cleared or evicted
   before the client replayed.
   */
  lemma NoLineIsMissed(steps: seq<Step>, q: nat, i: nat)
    requires Possible(steps)
    requires q in After(steps).clients && !After(steps).clients[q].left && After(steps).clients[q].replay.Some?
    requires i < |After(steps).log|
    ensures var s := After(steps);
            var c := s.clients[q];
            var r := c.replay.value;
            || (r.from <= i < r.upTo && i - r.from < |r.lines| && r.lines[i - r.from] == s.log[i])
            || i in c.received
            || InFlight(s, i, q)
            || (i < c.joined && i < r.from)
  {
    RunsAreValid(steps);
    assert ClientInv(After(steps), q);
  }

  lemma QueuesHoldLinesOnce(steps: seq<Step>, q: nat, i: nat, j: nat)
    requires Possible(steps) && q in After(steps).clients
    requires i < j < |After(steps).clients[q].received|
    ensures After(steps).clients[q].received[i] != After(steps).clients[q].received[j]
  {
    RunsAreValid(steps);
    assert ClientInv(After(steps), q);
  }

  /**
   The queue of a connected client gets exactly the lines emitted after it subscribed and those that were being emitted
   then.
   */
  lemma QueueGetsExactly(steps: seq<Step>, q: nat, i: nat)
    requires Possible(steps) && q in After(steps).clients && !After(steps).clients[q].left
    ensures var s := After(steps);
            var c := s.clients[q];
            i in c.received || InFlight(s, i, q) <==> c.joined <= i < |s.log| || i in c.early
  {
    RunsAreValid(steps);
    assert ClientInv(After(steps), q);
  }

  /** The line is in the replay of the client. */
  predicate Replayed(c: Client, i: nat) {
    c.replay.Some? && c.replay.value.from <= i < c.replay.value.upTo
  }

  /**
   A connected client gets a line twice, once replayed and once from its queue, if and only if its replay holds the line
   and the line was emitted after the client subscribed or was being emitted then.
   */
  lemma TwiceIff(steps: seq<Step>, q: nat, i: nat)
    requires Possible(steps) && q in After(steps).clients && !After(steps).clients[q].left
    requires i < |After(steps).log| && !InFlight(After(steps), i, q)
    ensures var c := After(steps).clients[q];
            Replayed(c, i) && i in c.received <==> Replayed(c, i) && (c.joined <= i || i in c.early)
  {
    QueueGetsExactly(steps, q, i);
  }

  // ---- The order of the lines in a queue ----

  /** At most `width` emits are under way at any time. */
  ghost predicate Overlaps(steps: seq<Step>, width: nat) {
    |After(steps).emits| <= width && (steps != [] ==> Overlaps(steps[..|steps| - 1], width))
  }

  predicate Ascending(lines: seq<nat>) {
    forall i, j :: 0 <= i < j < |lines| ==> lines[i] < lines[j]
  }

  /** Only the latest line is on its way, and all queues are in order. */
  ghost predicate InOrder(s: State) {
    && (forall i :: i in s.emits ==> i == |s.log| - 1)
    && (forall q :: q in s.clients ==> Ascending(s.clients[q].received))
  }

  lemma NoEmitBefore(emits: map<nat, EmitPhase>, i: nat, e: EmitPhase)
    requires |emits[i := e]| <= 1 && i !in emits
    ensures emits == map[]
  {
    var next := emits[i := e];
    assert next.Keys == emits.Keys + {i};
    assert |next.Keys| == |next| && |emits.Keys| == |next.Keys| - 1;
  }

  lemma PutKeepsOrder(s: State, i: nat, q: nat)
    requires Valid(s) && InOrder(s) && Enabled(s, PutStep(i, q))
    ensures InOrder(Do(s, PutStep(i, q)))
  {
    var received := s.clients[q].received;
    assert ClientInv(s, q) && InFlight(s, i, q);
    forall k | 0 <= k < |received| ensures received[k] < i {
      assert received[k] in received;
    }
  }

  lemma StepKeepsOrder(s: State, step: Step)
    requires Valid(s) && InOrder(s) && Enabled(s, step) && |Do(s, step).emits| <= 1
    ensures InOrder(Do(s, step))
  {
    match step
    case AppendStep(text) => NoEmitBefore(s.emits, |s.log|, Appended);
    case PutStep(i, q) => PutKeepsOrder(s, i, q);
    case _ =>
  }

  lemma {:induction false} SequentialEmitsKeepOrder(steps: seq<Step>, width: nat)
    requires Possible(steps) && Overlaps(steps, width) && width <= 1
    ensures InOrder(After(steps))
  {
    if steps != [] {
      SequentialEmitsKeepOrder(steps[..|steps| - 1], width);
      RunsAreValid(steps[..|steps| - 1]);
      StepKeepsOrder(After(steps[..|steps| - 1]), steps[|steps| - 1]);
    }
  }

  /** With at most `width` emits at a time, every queue has its lines in the order of the log. */
  ghost predicate QueuesInOrder(width: nat) {
    forall steps, q :: Possible(steps) && Overlaps(steps, width) && q in After(steps).clients ==>
      Ascending(After(steps).clients[q].received)
  }

  lemma Snoc(steps: seq<Step>, step: Step, width: nat)
    requires Possible(steps) && Overlaps(steps, width) && Enabled(After(steps), step)
    requires After(steps).cleared <= |After(steps).log| && |Do(After(steps), step).emits| <= width
    ensures Possible(steps + [step]) && Overlaps(steps + [step], width) && After(steps + [step]) == Do(After(steps), step)
  {
    assert (steps + [step])[..|steps|] == steps;
  }

  /** Two emits at a time: a client that listens, two lines buffered, and the second put into its queue first. */
  lemma OverlappingEmitsReorder() returns (steps: seq<Step>)
    ensures Possible(steps) && Overlaps(steps, 2) && 0 in After(steps).clients && After(steps).clients[0].received == [1, 0]
  {
    steps := [];
    Snoc(steps, SubscribeStep(0), 2);
    steps := steps + [SubscribeStep(0)];
    Snoc(steps, AppendStep("a"), 2);
    steps := steps + [AppendStep("a")];
    assert After(steps).emits == map[0 := Appended];
    Snoc(steps, AppendStep("b"), 2);
    steps := steps + [AppendStep("b")];
    assert After(steps).emits == map[0 := Appended, 1 := Appended];
    steps := SecondLineFirst(steps);
  }

  lemma SecondLineFirst(before: seq<Step>) returns (steps: seq<Step>)
    requires Possible(before) && Overlaps(before, 2) && After(before).cleared <= |After(before).log|
    requires After(before).emits == map[0 := Appended, 1 := Appended] && After(before).listeners == {0}
    requires 0 in After(before).clients && After(before).clients[0].received == []
    ensures Possible(steps) && Overlaps(steps, 2) && 0 in After(steps).clients && After(steps).clients[0].received == [1, 0]
  {
    steps := Deliver(before, 1);
    steps := Deliver(steps, 0);
  }

  /** The rest of an emit for its only listener. */
  lemma Deliver(before: seq<Step>, i: nat) returns (steps: seq<Step>)
    requires Possible(before) && Overlaps(before, 2) && After(before).cleared <= |After(before).log|
    requires i in After(before).emits && After(before).emits[i] == Appended && After(before).listeners == {0} && 0 in After(before).clients
    ensures Possible(steps) && Overlaps(steps, 2) && After(steps).cleared <= |After(steps).log| && After(steps).listeners == {0}
    ensures After(steps).emits == After(before).emits[i := Fanning({})]
    ensures 0 in After(steps).clients && After(steps).clients[0].received == After(before).clients[0].received + [i]
  {
    var s := After(before);
    SameSize(s.emits, i, Fanning({0}));
    Snoc(before, CopyListeners(i), 2);
    steps := before + [CopyListeners(i)];
    var t := After(steps);
    assert t.emits[i].targets - {0} == {};
    SameSize(t.emits, i, Fanning({}));
    Snoc(steps, PutStep(i, 0), 2);
    steps := steps + [PutStep(i, 0)];
  }

  lemma SameSize(emits: map<nat, EmitPhase>, i: nat, e: EmitPhase)
    requires i in emits
    ensures |emits[i := e]| == |emits|
  {
    assert emits[i := e].Keys == emits.Keys;
    assert |emits[i := e].Keys| == |emits[i := e]| && |emits.Keys| == |emits|;
  }

  lemma {:induction false} OverlapsMore(steps: seq<Step>, width: nat, more: nat)
    requires Overlaps(steps, width) && width <= more
    ensures Overlaps(steps, more)
  {
    if steps != [] {
      OverlapsMore(steps[..|steps| - 1], width, more);
    }
  }

  /** Queues keep the order of the log if and only if emits do not overlap. */
  lemma QueuesInOrderIff(width: nat)
    ensures QueuesInOrder(width) <==> width <= 1
  {
    if width <= 1 {
      forall steps, q | Possible(steps) && Overlaps(steps, width) && q in After(steps).clients
        ensures Ascending(After(steps).clients[q].received)
      {
        SequentialEmitsKeepOrder(steps, width);
      }
    } else {
      var steps := OverlappingEmitsReorder();
      OverlapsMore(steps, 2, width);
      var received := After(steps).clients[0].received;
      assert received[0] > received[1];
      assert Possible(steps) && Overlaps(steps, width) && !Ascending(received);
    }
  }
}
