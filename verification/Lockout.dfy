/** The login lockout: ten consecutive failures lock a name for fifteen minutes, and so does every later failure. */
module Lockout {
  import opened Text

  const MAX_FAILURES := 10
  const LOCKOUT_SECONDS := 900.0

  datatype Attempts = Attempts(failures: nat, lockedUntil: real)

  datatype Result = Locked | Rejected | Accepted

  const NONE_YET := Attempts(0, 0.0)

  function Lookup(table: map<string, Attempts>, key: string): Attempts {
    if key in table then table[key] else NONE_YET
  }

  /** `_record_failure` on one entry. */
  function Recorded(a: Attempts, now: real): Attempts {
    var failures := a.failures + 1;
    Attempts(failures, if failures >= MAX_FAILURES then now + LOCKOUT_SECONDS else a.lockedUntil)
  }

  /** What happens to one name: a login with the times at which it is checked and recorded, or an unlock by an admin. */
  datatype Event = Login(check: real, record: real, valid: bool) | Unlock

  function ResultOf(a: Attempts, e: Event): Result
    requires e.Login?
  {
    if a.lockedUntil > e.check then Locked else if e.valid then Accepted else Rejected
  }

  function Next(a: Attempts, e: Event): Attempts {
    if e.Unlock? then NONE_YET
    else
      match ResultOf(a, e)
      case Locked => a
      case Rejected => Recorded(a, e.record)
      case Accepted => NONE_YET
  }

  class LoginGuard {
    var table: map<string, Attempts>

    constructor ()
      ensures table == map[]
    {
      table := map[];
    }

    method CheckLockout(username: string, now: real) returns (locked: bool)
      ensures locked <==> Lookup(table, Fold(username)).lockedUntil > now
    {
      locked := Lookup(table, Fold(username)).lockedUntil > now;
    }

    method RecordFailure(username: string, now: real)
      modifies this
      ensures table == old(table)[Fold(username) := Recorded(Lookup(old(table), Fold(username)), now)]
    {
      var state := Lookup(table, Fold(username));
      var failures := state.failures + 1;
      var lockedUntil := state.lockedUntil;
      if failures >= MAX_FAILURES {
        lockedUntil := now + LOCKOUT_SECONDS;
      }
      table := table[Fold(username) := Attempts(failures, lockedUntil)];
    }

    method ClearFailures(username: string)
      modifies this
      ensures table == old(table)[Fold(username) := NONE_YET]
    {
      table := table[Fold(username) := Attempts(0, 0.0)];
    }

    /** `login`; `valid` says whether the name and password are right. */
    method TryLogin(username: string, check: real, record: real, valid: bool) returns (result: Result)
      modifies this
      ensures result == ResultOf(Lookup(old(table), Fold(username)), Login(check, record, valid))
      ensures Lookup(table, Fold(username)) == Next(Lookup(old(table), Fold(username)), Login(check, record, valid))
      ensures forall key :: key != Fold(username) ==> Lookup(table, key) == Lookup(old(table), key)
    {
      var locked := CheckLockout(username, check);
      if locked {
        return Locked;
      }
      if !valid {
        RecordFailure(username, record);
        return Rejected;
      }
      ClearFailures(username);
      result := Accepted;
    }
  }

  // ---- Histories of one name ----

  function After(events: seq<Event>): Attempts {
    if events == [] then NONE_YET else Next(After(events[..|events| - 1]), events[|events| - 1])
  }

  /** When the failed checks since the last success or unlock were recorded. */
  function Failures(events: seq<Event>): seq<real> {
    if events == [] then []
    else
      var init, e := events[..|events| - 1], events[|events| - 1];
      if e.Unlock? then []
      else
        match ResultOf(After(init), e)
        case Locked => Failures(init)
        case Rejected => Failures(init) + [e.record]
        case Accepted => []
  }

  /** No login is recorded before it was checked. */
  predicate ClockRuns(events: seq<Event>) {
    forall i :: 0 <= i < |events| && events[i].Login? ==> 0.0 <= events[i].check <= events[i].record
  }

  /** The counter counts the failures since the last reset, and from the tenth on the lock dates from the latest one. */
  lemma {:induction false} CounterIsExact(events: seq<Event>)
    ensures After(events).failures == |Failures(events)|
    ensures After(events).lockedUntil ==
            if |Failures(events)| >= 10 then Failures(events)[|Failures(events)| - 1] + 900.0 else 0.0
  {
    if events != [] {
      CounterIsExact(events[..|events| - 1]);
    }
  }

  /** A login is turned away unchecked exactly when the name has ten failures and the latest is less than 15 minutes old. */
  lemma LockedExactly(events: seq<Event>, e: Event)
    requires e.Login? && 0.0 <= e.check
    ensures ResultOf(After(events), e) == Locked <==>
            |Failures(events)| >= 10 && e.check < Failures(events)[|Failures(events)| - 1] + 900.0
    ensures ResultOf(After(events), e) == Accepted <==> ResultOf(After(events), e) != Locked && e.valid
  {
    CounterIsExact(events);
  }

  /** A wrong password is counted and from the tenth time on locks the name; a right one and an unlock forget all failures. */
  lemma OneMoreEvent(events: seq<Event>, e: Event)
    ensures var before, after := After(events), After(events + [e]);
            if e.Login? && before.lockedUntil > e.check then after == before && Failures(events + [e]) == Failures(events)
            else if e.Unlock? || e.valid then after == Attempts(0, 0.0) && Failures(events + [e]) == []
            else
              && after.failures == before.failures + 1 && Failures(events + [e]) == Failures(events) + [e.record]
              && after.lockedUntil == if after.failures >= 10 then e.record + 900.0 else before.lockedUntil
  {
    assert (events + [e])[..|events|] == events && (events + [e])[|events|] == e;
  }

  /** From the tenth failure on, failures are at least 15 minutes apart. */
  lemma {:induction false} FailuresAreSpaced(events: seq<Event>, k: nat)
    requires ClockRuns(events)
    requires 10 <= k < |Failures(events)|
    ensures Failures(events)[k] >= Failures(events)[k - 1] + 900.0
  {
    var init, e := events[..|events| - 1], events[|events| - 1];
    if k < |Failures(init)| {
      FailuresAreSpaced(init, k);
    } else {
      CounterIsExact(init);
    }
  }

  lemma {:induction false} FailuresSpread(events: seq<Event>, k: nat)
    requires ClockRuns(events)
    requires MAX_FAILURES - 1 <= k < |Failures(events)|
    ensures Failures(events)[k] >= Failures(events)[MAX_FAILURES - 1] + LOCKOUT_SECONDS * (k - (MAX_FAILURES - 1)) as real
  {
    if k >= MAX_FAILURES {
      FailuresSpread(events, k - 1);
      FailuresAreSpaced(events, k);
    }
  }

  /**
   Between two resets, the failed password checks up to time t number at most ten plus one for every full 15 minutes
   since the tenth.
   */
  lemma GuessesAreBounded(events: seq<Event>, t: real)
    requires ClockRuns(events)
    requires |Failures(events)| >= 10 && Failures(events)[|Failures(events)| - 1] <= t
    ensures |Failures(events)| <= 10 + ((t - Failures(events)[9]) / 900.0).Floor
  {
    var n := |Failures(events)|;
    FailuresSpread(events, n - 1);
    var extra := n - MAX_FAILURES;
    assert t - Failures(events)[MAX_FAILURES - 1] >= LOCKOUT_SECONDS * extra as real;
    assert (t - Failures(events)[MAX_FAILURES - 1]) / LOCKOUT_SECONDS >= extra as real;
  }

  // ---- Overlapping requests ----

  /** What requests for one name do to its entry: a request is checked, and later its password is found right or wrong. */
  datatype Step =
    | Check(now: real)
    | Fail(now: real)
    | Succeed(now: real)
    | Clear(now: real)

  /** The entry, how many requests have passed the check and are not yet decided, and the failures since the last reset. */
  datatype State = State(entry: Attempts, undecided: nat, failures: seq<real>)

  const QUIET := State(NONE_YET, 0, [])

  predicate Enabled(s: State, step: Step) {
    step.Fail? || step.Succeed? ==> s.undecided > 0
  }

  function Do(s: State, step: Step): State
    requires Enabled(s, step)
  {
    match step
    case Check(now) => if s.entry.lockedUntil > now then s else s.(undecided := s.undecided + 1)
    case Fail(now) => State(Recorded(s.entry, now), s.undecided - 1, s.failures + [now])
    case Succeed(_) => State(NONE_YET, s.undecided - 1, [])
    case Clear(_) => s.(entry := NONE_YET, failures := [])
  }

  /** A request that is checked and decided at once does what a login of the sequential histories does. */
  lemma OneRequestIsALogin(s: State, e: Event)
    requires e.Login?
    ensures var checked := Do(s, Check(e.check));
            match ResultOf(s.entry, e)
            case Locked => checked == s && Next(s.entry, e) == s.entry
            case Rejected =>
              Do(checked, Fail(e.record)) == State(Next(s.entry, e), s.undecided, s.failures + [e.record])
            case Accepted => Do(checked, Succeed(e.record)) == State(Next(s.entry, e), s.undecided, [])
    ensures Do(s, Clear(e.check)) == State(Next(s.entry, Unlock), s.undecided, [])
  {
  }

  /** The state after a run; a step that is not possible is left out. */
  function Reached(steps: seq<Step>): State {
    if steps == [] then QUIET
    else
      var before, step := Reached(steps[..|steps| - 1]), steps[|steps| - 1];
      if Enabled(before, step) then Do(before, step) else before
  }

  function Now(steps: seq<Step>): real {
    if steps == [] then 0.0 else steps[|steps| - 1].now
  }

  /** Each step is possible, the clock does not run backwards, and at most `width` requests are undecided at any time. */
  ghost predicate Overlaps(steps: seq<Step>, width: nat) {
    steps != [] ==>
      var init, step := steps[..|steps| - 1], steps[|steps| - 1];
      && Overlaps(init, width) && Enabled(Reached(init), step) && Now(init) <= step.now
      && Reached(steps).undecided <= width
  }

  lemma {:induction false} EntryIsExact(steps: seq<Step>, width: nat)
    requires Overlaps(steps, width)
    ensures var s := Reached(steps);
            && s.entry.failures == |s.failures|
            && s.entry.lockedUntil ==
               (if |s.failures| >= MAX_FAILURES then s.failures[|s.failures| - 1] + LOCKOUT_SECONDS else 0.0)
            && (forall i, j :: 0 <= i <= j < |s.failures| ==> s.failures[i] <= s.failures[j] <= Now(steps))
            && 0.0 <= Now(steps) && s.undecided <= width
  {
    if steps != [] {
      EntryIsExact(steps[..|steps| - 1], width);
    }
  }

  /**
   After the failure `k` sets a lock, only the requests that were undecided then can fail before the lock is over; so
   `width` failures later at least 15 minutes have passed.
   */
  lemma {:induction false} LocksHoldBack(steps: seq<Step>, width: nat, k: nat)
    requires Overlaps(steps, width) && MAX_FAILURES - 1 <= k < |Reached(steps).failures|
    ensures var s := Reached(steps);
            && (|s.failures| - 1 - k + s.undecided <= width - 1 || Now(steps) >= s.failures[k] + 900.0)
            && forall j :: k + width <= j < |s.failures| ==> s.failures[j] >= s.failures[k] + 900.0
  {
    var init, step := steps[..|steps| - 1], steps[|steps| - 1];
    EntryIsExact(init, width);
    EntryIsExact(steps, width);
    if k < |Reached(init).failures| {
      LocksHoldBack(init, width, k);
    }
  }

  lemma {:induction false} LocksAddUp(steps: seq<Step>, width: nat, m: nat)
    requires Overlaps(steps, width) && width > 0
    requires MAX_FAILURES - 1 + width * m < |Reached(steps).failures|
    ensures Reached(steps).failures[MAX_FAILURES - 1 + width * m] >=
            Reached(steps).failures[MAX_FAILURES - 1] + LOCKOUT_SECONDS * m as real
  {
    if m > 0 {
      var before := width * (m - 1);
      OneRoundMore(width, m);
      LocksAddUp(steps, width, m - 1);
      LocksHoldBack(steps, width, MAX_FAILURES - 1 + before);
      assert Reached(steps).failures[MAX_FAILURES - 1 + before + width] >= Reached(steps).failures[MAX_FAILURES - 1 + before] + LOCKOUT_SECONDS;
    }
  }

  lemma OneRoundMore(width: nat, m: nat)
    requires m > 0
    ensures width * m == width * (m - 1) + width && width * (m - 1) >= 0
  {
  }

  /** How many failures there can be up to time `t`, when the tenth was at `tenth`. */
  function Bound(width: nat, tenth: real, t: real): int {
    9 + width * (((t - tenth) / 900.0).Floor + 1)
  }

  /**
   With at most `width` requests undecided at a time, each lock lets through at most `width - 1` guesses more than one:
   for width 1 this is the bound of sequential requests, 10 + floor((t - tenth) / 900).
   */
  lemma OverlappingGuessesAreBounded(steps: seq<Step>, width: nat, t: real)
    requires Overlaps(steps, width)
    requires var log := Reached(steps).failures; |log| >= 10 && log[|log| - 1] <= t
    ensures var log := Reached(steps).failures; |log| <= Bound(width, log[9], t)
  {
    var log := Reached(steps).failures;
    EntryIsExact(steps, width);
    LocksHoldBack(steps, width, |log| - 1);
    SomeWidth(steps, width);
    var m := FullRounds(|log| - MAX_FAILURES, width);
    LocksAddUp(steps, width, m);
    assert log[MAX_FAILURES - 1 + width * m] <= log[|log| - 1];
    LocksFit(m, t - log[MAX_FAILURES - 1]);
    RoundsBound(|log| - MAX_FAILURES, width, m, ((t - log[MAX_FAILURES - 1]) / LOCKOUT_SECONDS).Floor);
  }

  lemma FullRounds(n: nat, width: nat) returns (m: nat)
    requires width > 0
    ensures width * m <= n < width * m + width
  {
    m := n / width;
  }

  lemma LocksFit(m: nat, passed: real)
    requires passed >= LOCKOUT_SECONDS * m as real
    ensures (passed / LOCKOUT_SECONDS).Floor >= m
  {
    assert passed / LOCKOUT_SECONDS >= m as real;
  }

  lemma RoundsBound(n: nat, width: nat, m: nat, locks: int)
    requires n < width * m + width && m <= locks
    ensures MAX_FAILURES + n <= MAX_FAILURES - 1 + width * (locks + 1)
  {
    assert width * m + width == width * (m + 1) <= width * (locks + 1);
  }

  lemma {:induction false} SomeWidth(steps: seq<Step>, width: nat)
    requires Overlaps(steps, width) && Reached(steps).failures != []
    ensures width > 0
  {
    var init := steps[..|steps| - 1];
    EntryIsExact(init, width);
    if Reached(init).failures != [] {
      SomeWidth(init, width);
    }
  }

  // ---- The bound is attained ----

  /** `base`, and then `n` times the same step. */
  function Repeat(base: seq<Step>, step: Step, n: nat): seq<Step> {
    if n == 0 then base else Repeat(base, step, n - 1) + [step]
  }

  lemma Snoc(steps: seq<Step>, step: Step, width: nat)
    requires Overlaps(steps, width) && Enabled(Reached(steps), step) && Now(steps) <= step.now
    requires Do(Reached(steps), step).undecided <= width
    ensures Overlaps(steps + [step], width) && Reached(steps + [step]) == Do(Reached(steps), step) && Now(steps + [step]) == step.now
  {
    assert (steps + [step])[..|steps|] == steps;
  }

  lemma CheckPasses(steps: seq<Step>, width: nat)
    requires Overlaps(steps, width) && Now(steps) == 0.0
    requires Reached(steps).entry.lockedUntil <= 0.0 && Reached(steps).undecided < width
    ensures var more := steps + [Check(0.0)];
            Overlaps(more, width) && Now(more) == 0.0 && Reached(more) == Reached(steps).(undecided := Reached(steps).undecided + 1)
  {
    Snoc(steps, Check(0.0), width);
  }

  lemma {:induction false} ChecksPass(base: seq<Step>, n: nat, width: nat)
    requires Overlaps(base, width) && Now(base) == 0.0 && Reached(base).entry.lockedUntil <= 0.0
    requires Reached(base).undecided + n <= width
    ensures var steps := Repeat(base, Check(0.0), n);
            && Overlaps(steps, width) && Now(steps) == 0.0
            && Reached(steps) == Reached(base).(undecided := Reached(base).undecided + n)
  {
    if n > 0 {
      ChecksPass(base, n - 1, width);
      CheckPasses(Repeat(base, Check(0.0), n - 1), width);
    }
  }

  lemma {:induction false} FailuresAreRecorded(base: seq<Step>, n: nat, width: nat)
    requires Overlaps(base, width) && Now(base) == 0.0 && n <= Reached(base).undecided
    ensures var steps := Repeat(base, Fail(0.0), n);
            && Overlaps(steps, width) && Now(steps) == 0.0
            && Reached(steps).undecided == Reached(base).undecided - n
            && |Reached(steps).failures| == |Reached(base).failures| + n
  {
    if n > 0 {
      FailuresAreRecorded(base, n - 1, width);
      EntryIsExact(Repeat(base, Fail(0.0), n - 1), width);
      Snoc(Repeat(base, Fail(0.0), n - 1), Fail(0.0), width);
    }
  }

  /** `n` requests that are all checked before the first of their failures is recorded. */
  function Burst(base: seq<Step>, n: nat): seq<Step> {
    Repeat(Repeat(base, Check(0.0), n), Fail(0.0), n)
  }

  lemma BurstIsRecorded(base: seq<Step>, n: nat, width: nat)
    requires Overlaps(base, width) && Now(base) == 0.0 && Reached(base).undecided == 0
    requires |Reached(base).failures| < MAX_FAILURES && n <= width
    ensures Overlaps(Burst(base, n), width) && Now(Burst(base, n)) == 0.0 && Reached(Burst(base, n)).undecided == 0
    ensures |Reached(Burst(base, n)).failures| == |Reached(base).failures| + n
  {
    EntryIsExact(base, width);
    ChecksPass(base, n, width);
    FailuresAreRecorded(Repeat(base, Check(0.0), n), n, width);
  }

  /** `n` requests one after the other. */
  function InTurn(n: nat): seq<Step> {
    if n == 0 then [] else Burst(InTurn(n - 1), 1)
  }

  lemma {:induction false} InTurnIsRecorded(n: nat, width: nat)
    requires n < MAX_FAILURES && width > 0
    ensures Overlaps(InTurn(n), width) && Now(InTurn(n)) == 0.0 && Reached(InTurn(n)).undecided == 0
    ensures |Reached(InTurn(n)).failures| == n
  {
    if n > 0 {
      InTurnIsRecorded(n - 1, width);
      BurstIsRecorded(InTurn(n - 1), 1, width);
    }
  }

  /** Nine failures one after the other and then `width` requests at once reach the bound before any time has passed. */
  lemma BoundIsAttained(width: nat)
    requires width > 0
    ensures var steps := Burst(InTurn(MAX_FAILURES - 1), width);
            var log := Reached(steps).failures;
            Overlaps(steps, width) && |log| >= MAX_FAILURES && log[|log| - 1] <= 0.0 && |log| == Bound(width, log[MAX_FAILURES - 1], 0.0)
  {
    var steps := Burst(InTurn(MAX_FAILURES - 1), width);
    InTurnIsRecorded(MAX_FAILURES - 1, width);
    BurstIsRecorded(InTurn(MAX_FAILURES - 1), width, width);
    FailedAtOnce(steps, width);
    assert ((0.0 - 0.0) / LOCKOUT_SECONDS).Floor == 0;
  }

  lemma FailedAtOnce(steps: seq<Step>, width: nat)
    requires Overlaps(steps, width) && Now(steps) == 0.0
    ensures forall i :: 0 <= i < |Reached(steps).failures| ==> Reached(steps).failures[i] == 0.0
  {
    EntryIsExact(steps, width);
    TimesAreNotNegative(steps, width);
  }

  lemma {:induction false} TimesAreNotNegative(steps: seq<Step>, width: nat)
    requires Overlaps(steps, width)
    ensures forall i :: 0 <= i < |Reached(steps).failures| ==> 0.0 <= Reached(steps).failures[i]
  {
    if steps != [] {
      TimesAreNotNegative(steps[..|steps| - 1], width);
      EntryIsExact(steps[..|steps| - 1], width);
    }
  }

  /** The bound that holds for sequential requests. */
  ghost predicate SequentialBound(width: nat) {
    forall steps: seq<Step>, t: real :: Overlaps(steps, width) && FailedBy(steps, t) ==> WithinSequentialBound(steps, t)
  }

  predicate FailedBy(steps: seq<Step>, t: real) {
    var log := Reached(steps).failures;
    |log| >= MAX_FAILURES && log[|log| - 1] <= t
  }

  predicate WithinSequentialBound(steps: seq<Step>, t: real)
    requires FailedBy(steps, t)
  {
    var log := Reached(steps).failures;
    |log| <= MAX_FAILURES + ((t - log[MAX_FAILURES - 1]) / LOCKOUT_SECONDS).Floor
  }

  /** It holds if and only if requests for a name do not overlap. */
  lemma SequentialBoundIff(width: nat)
    ensures SequentialBound(width) <==> width <= 1
  {
    if width <= 1 {
      forall steps: seq<Step>, t: real | Overlaps(steps, width) && FailedBy(steps, t) ensures WithinSequentialBound(steps, t) {
        OverlappingGuessesAreBounded(steps, width, t);
        SomeWidth(steps, width);
      }
    } else {
      BoundIsAttained(width);
      var steps := Burst(InTurn(MAX_FAILURES - 1), width);
      FailedAtOnce(steps, width);
      assert FailedBy(steps, 0.0) && !WithinSequentialBound(steps, 0.0);
    }
  }

  /** Eleven requests that are all checked before the tenth failure is recorded are all counted at the time of the tenth. */
  lemma ElevenAtOnceExceedTheBound()
    ensures var steps := Burst([], MAX_FAILURES + 1);
            && Overlaps(steps, MAX_FAILURES + 1) && |Reached(steps).failures| == MAX_FAILURES + 1
            && FailedBy(steps, 0.0) && !WithinSequentialBound(steps, 0.0)
  {
    var steps := Burst([], MAX_FAILURES + 1);
    BurstIsRecorded([], MAX_FAILURES + 1, MAX_FAILURES + 1);
    FailedAtOnce(steps, MAX_FAILURES + 1);
    assert ((0.0 - 0.0) / LOCKOUT_SECONDS).Floor == 0;
  }
}
