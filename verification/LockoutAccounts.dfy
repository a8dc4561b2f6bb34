/** The lockout counts names, and several names may stand for one account: when its bound is one for the account. */
module LockoutAccounts {
  import opened Text
  import opened Lockout

  // ---- Names and accounts ----

  predicate IsSpace(c: char) {
    c == ' ' || '\t' <= c <= '\r' || '\U{1c}' <= c <= '\U{1f}'
  }

  lemma SpacesAre(c: char)
    ensures IsSpace(c) <==> c in {' ', '\t', '\n', '\U{b}', '\U{c}', '\r', '\U{1c}', '\U{1d}', '\U{1e}', '\U{1f}'}
  {
    if '\t' <= c <= '\r' {
      assert c as int in {9, 10, 11, 12, 13};
    } else if '\U{1c}' <= c <= '\U{1f}' {
      assert c as int in {28, 29, 30, 31};
    }
  }

  predicate Blank(s: string) {
    forall i :: 0 <= i < |s| ==> IsSpace(s[i])
  }

  /** A name that neither starts nor ends with white space. */
  predicate Bare(name: string) {
    name != "" && !IsSpace(name[0]) && !IsSpace(name[|name| - 1])
  }

  function StripLeft(s: string): string {
    if s != "" && IsSpace(s[0]) then StripLeft(s[1..]) else s
  }

  function StripRight(s: string): string {
    if s != "" && IsSpace(s[|s| - 1]) then StripRight(s[..|s| - 1]) else s
  }

  /** `str.strip()`: the name under which the account is looked up. */
  function Account(username: string): string {
    StripRight(StripLeft(username))
  }

  lemma {:induction false} StripLeftParts(s: string) returns (lead: string)
    ensures s == lead + StripLeft(s) && Blank(lead) && (StripLeft(s) != "" ==> !IsSpace(StripLeft(s)[0]))
  {
    lead := "";
    if s != "" && IsSpace(s[0]) {
      var rest := StripLeftParts(s[1..]);
      lead := [s[0]] + rest;
      assert s == [s[0]] + s[1..];
    }
  }

  lemma {:induction false} StripRightParts(s: string) returns (trail: string)
    ensures s == StripRight(s) + trail && Blank(trail) && (StripRight(s) != "" ==> !IsSpace(StripRight(s)[|StripRight(s)| - 1]))
  {
    trail := "";
    if s != "" && IsSpace(s[|s| - 1]) {
      var rest := StripRightParts(s[..|s| - 1]);
      trail := rest + [s[|s| - 1]];
      assert s == s[..|s| - 1] + [s[|s| - 1]];
    }
  }

  /** A user name is the account's name between white space. */
  lemma UsernameParts(username: string) returns (lead: string, trail: string)
    requires Account(username) != ""
    ensures username == lead + Account(username) + trail && Blank(lead) && Blank(trail) && Bare(Account(username))
  {
    lead := StripLeftParts(username);
    trail := StripRightParts(StripLeft(username));
    assert lead + (Account(username) + trail) == lead + Account(username) + trail;
    assert Account(username)[0] == StripLeft(username)[0];
  }

  /** In front of the first character of the account's name there is only white space, folded or not. */
  lemma LeadIsNotLonger(lead: string, name: string, trail: string, lead': string, trail': string)
    requires Bare(name) && Blank(lead) && Blank(lead')
    requires Fold(lead + name + trail) == Fold(lead' + name + trail')
    ensures |lead| <= |lead'|
  {
    var k := |lead'|;
    assert Fold(lead' + name + trail')[k] == FoldChar(name[0]) && !IsSpace(FoldChar(name[0]));
  }

  lemma BlankFolds(s: string)
    requires Blank(s)
    ensures Fold(s) == s
  {
  }

  /** Requests for one account share a counter if and only if they spell its name in the same way, white space included. */
  lemma SharedCounterIff(u: string, v: string)
    requires Account(u) == Account(v) != ""
    ensures Fold(u) == Fold(v) <==> u == v
  {
    var lead, trail := UsernameParts(u);
    var lead', trail' := UsernameParts(v);
    var name := Account(u);
    if Fold(u) == Fold(v) {
      LeadIsNotLonger(lead, name, trail, lead', trail');
      LeadIsNotLonger(lead', name, trail', lead, trail);
      assert |u| == |v| && |trail| == |trail'|;
      Slices(lead, name, trail);
      Slices(lead', name, trail');
      SamePart(u, v, 0, lead, lead');
      SamePart(u, v, |lead| + |name|, trail, trail');
    }
  }

  lemma Slices(lead: string, name: string, trail: string)
    ensures var s := lead + name + trail;
            s[0..|lead|] == lead && s[|lead| + |name|..|lead| + |name| + |trail|] == trail
  {
  }

  lemma SamePart(u: string, v: string, at: nat, part: string, part': string)
    requires Fold(u) == Fold(v) && |part| == |part'| && at + |part| <= |u|
    requires u[at..at + |part|] == part && v[at..at + |part|] == part'
    requires Blank(part) && Blank(part')
    ensures part == part'
  {
    BlankFolds(part);
    BlankFolds(part');
    forall i | 0 <= i < |part| ensures part[i] == part'[i] {
      assert u[at + i] == part[i] && v[at + i] == part'[i];
      assert Fold(u)[at + i] == FoldChar(u[at + i]) && Fold(v)[at + i] == FoldChar(v[at + i]);
    }
  }

  /** A space in front makes another counter of it, for the same account. */
  lemma SpacedNameHasOwnCounter(name: string)
    requires Bare(name)
    ensures Account(" " + name) == Account(name) == name && Fold(" " + name) != Fold(name)
  {
    assert (" " + name)[1..] == name;
    assert StripLeft(name) == name && StripRight(name) == name;
    assert |Fold(" " + name)| == |Fold(name)| + 1;
  }

  // ---- Guesses at one account ----

  /** A login with a wrong password, checked and recorded before the next one is checked. */
  datatype Guess = Guess(username: string, check: real, record: real)

  function AsEvent(g: Guess): Event {
    Login(g.check, g.record, false)
  }

  /** The entry of a key after some guesses. */
  function EntryOf(guesses: seq<Guess>, key: string): Attempts {
    if guesses == [] then NONE_YET
    else
      var before, g := EntryOf(guesses[..|guesses| - 1], key), guesses[|guesses| - 1];
      if Fold(g.username) == key then Next(before, AsEvent(g)) else before
  }

  /** When the guesses that were not turned away were recorded, whatever name they used. */
  function Failed(guesses: seq<Guess>): seq<real> {
    if guesses == [] then []
    else
      var init, g := guesses[..|guesses| - 1], guesses[|guesses| - 1];
      if ResultOf(EntryOf(init, Fold(g.username)), AsEvent(g)) == Rejected then Failed(init) + [g.record] else Failed(init)
  }

  ghost predicate InOrder(guesses: seq<Guess>) {
    && (forall i :: 0 <= i < |guesses| ==> 0.0 <= guesses[i].check <= guesses[i].record)
    && (forall i, j :: 0 <= i < j < |guesses| ==> guesses[i].record <= guesses[j].check)
  }

  ghost predicate UsesOnly(guesses: seq<Guess>, names: set<string>) {
    forall i :: 0 <= i < |guesses| ==> guesses[i].username in names
  }

  /** Ten guesses have failed, all of them up to time `t`. */
  predicate TenFailedBy(guesses: seq<Guess>, t: real) {
    var log := Failed(guesses);
    |log| >= MAX_FAILURES && log[|log| - 1] <= t
  }

  predicate WithinBound(guesses: seq<Guess>, t: real)
    requires TenFailedBy(guesses, t)
  {
    var log := Failed(guesses);
    |log| <= MAX_FAILURES + ((t - log[MAX_FAILURES - 1]) / LOCKOUT_SECONDS).Floor
  }

  /** Whoever guesses with these names gets no more guesses than the bound for one name allows. */
  ghost predicate Bounded(names: set<string>) {
    forall guesses: seq<Guess>, t: real :: InOrder(guesses) && UsesOnly(guesses, names) && TenFailedBy(guesses, t) ==>
      WithinBound(guesses, t)
  }

  function Events(guesses: seq<Guess>): seq<Event> {
    seq(|guesses|, i requires 0 <= i < |guesses| => AsEvent(guesses[i]))
  }

  /** Guesses under one name are a history of this name. */
  lemma {:induction false} OneNameIsOneHistory(guesses: seq<Guess>, name: string)
    requires forall i :: 0 <= i < |guesses| ==> guesses[i].username == name
    ensures EntryOf(guesses, Fold(name)) == After(Events(guesses)) && Failed(guesses) == Failures(Events(guesses))
  {
    if guesses != [] {
      var init := guesses[..|guesses| - 1];
      OneNameIsOneHistory(init, name);
      assert Events(guesses)[..|guesses| - 1] == Events(init);
    }
  }

  /** `n` guesses at time 0 under one name. */
  function GuessesAtOnce(name: string, n: nat): seq<Guess> {
    seq(n, _ => Guess(name, 0.0, 0.0))
  }

  lemma {:induction false} FirstTenPass(name: string, n: nat)
    requires n <= MAX_FAILURES
    ensures var guesses := GuessesAtOnce(name, n);
            && Failed(guesses) == seq(n, _ => 0.0)
            && EntryOf(guesses, Fold(name)) == Attempts(n, if n == MAX_FAILURES then LOCKOUT_SECONDS else 0.0)
  {
    if n > 0 {
      FirstTenPass(name, n - 1);
      assert GuessesAtOnce(name, n)[..n - 1] == GuessesAtOnce(name, n - 1);
      assert seq(n, _ => 0.0) == seq(n - 1, _ => 0.0) + [0.0];
    }
  }

  lemma {:induction false} OtherNamesAreUntouched(guesses: seq<Guess>, name: string, key: string)
    requires key != Fold(name) && forall i :: 0 <= i < |guesses| ==> guesses[i].username == name
    ensures EntryOf(guesses, key) == NONE_YET
  {
    if guesses != [] {
      OtherNamesAreUntouched(guesses[..|guesses| - 1], name, key);
    }
  }

  /** Ten guesses under one spelling and one more under another, all at once. */
  lemma EleventhGuessPasses(u: string, v: string)
    requires Fold(u) != Fold(v)
    ensures var guesses := GuessesAtOnce(u, MAX_FAILURES) + [Guess(v, 0.0, 0.0)];
            && InOrder(guesses) && UsesOnly(guesses, {u, v}) && |Failed(guesses)| == MAX_FAILURES + 1
            && TenFailedBy(guesses, 0.0) && !WithinBound(guesses, 0.0)
  {
    var ten := GuessesAtOnce(u, MAX_FAILURES);
    var guesses := ten + [Guess(v, 0.0, 0.0)];
    FirstTenPass(u, MAX_FAILURES);
    OtherNamesAreUntouched(ten, u, Fold(v));
    assert guesses[..MAX_FAILURES] == ten;
    assert Failed(guesses) == Failed(ten) + [0.0];
    assert ((0.0 - 0.0) / LOCKOUT_SECONDS).Floor == 0;
  }

  lemma OneNameIsBounded(names: set<string>, guesses: seq<Guess>, t: real)
    requires |names| <= 1 && InOrder(guesses) && UsesOnly(guesses, names) && TenFailedBy(guesses, t)
    ensures WithinBound(guesses, t)
  {
    var name := guesses[0].username;
    forall i | 0 <= i < |guesses| ensures guesses[i].username == name {
      OnlyMember(names, guesses[i].username, name);
    }
    OneNameIsOneHistory(guesses, name);
    GuessesAreBounded(Events(guesses), t);
  }

  lemma TwoMembers(names: set<string>) returns (u: string, v: string)
    requires |names| > 1
    ensures u in names && v in names && u != v
  {
    u :| u in names;
    assert |names - {u}| == |names| - 1;
    v :| v in names - {u};
  }

  lemma OnlyMember(names: set<string>, a: string, b: string)
    requires |names| <= 1 && a in names && b in names
    ensures a == b
  {
    if a != b {
      assert {a, b} <= names;
      SmallerSet({a, b}, names);
    }
  }

  lemma SmallerSet(a: set<string>, b: set<string>)
    requires a <= b
    ensures |a| <= |b|
  {
    assert b == a + (b - a);
  }

  /**
   For names of one account: the guesses at the account keep to the bound for one name, in every run, if and only if
   there is only one name, that is, if all requests spell it alike.
   */
  lemma AccountIsBoundedIff(names: set<string>, account: string)
    requires account != "" && forall name :: name in names ==> Account(name) == account
    ensures Bounded(names) <==> |names| <= 1
  {
    if |names| <= 1 {
      forall guesses: seq<Guess>, t: real | InOrder(guesses) && UsesOnly(guesses, names) && TenFailedBy(guesses, t)
        ensures WithinBound(guesses, t)
      {
        OneNameIsBounded(names, guesses, t);
      }
    } else {
      var u, v := TwoMembers(names);
      SharedCounterIff(u, v);
      EleventhGuessPasses(u, v);
      var guesses := GuessesAtOnce(u, MAX_FAILURES) + [Guess(v, 0.0, 0.0)];
      assert UsesOnly(guesses, names);
      assert TenFailedBy(guesses, 0.0) && !WithinBound(guesses, 0.0);
    }
  }
}
