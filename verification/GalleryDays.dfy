/** The per-day feeds, put one after the other, are the global feed. */
module GalleryDays {
  import opened Text
  import opened Sorting
  import opened Gallery

  /** A day together with the query answers its feed is computed from. */
  datatype DayAnswer = DayAnswer(day: Option<int>, normal: seq<Row>, legacy: seq<Row>)

  function RequestFor(day: Option<int>): DayRequest {
    match day
    case None => Undated
    case Some(d) => Canonical(d)
  }

  ghost predicate Answered(dayOf: DayOf, table: seq<Row>, a: DayAnswer) {
    && Answers(dayOf, if a.day.Some? then RowsOfDay(table, a.day.value) else [], ByName(), a.normal)
    && Scans(LegacyRows(table, false), a.legacy)
  }

  /** The whole feed of one day. */
  function FeedOf(dayOf: DayOf, a: DayAnswer): seq<Capture> {
    DayFeed(dayOf, RequestFor(a.day), a.normal, a.legacy)
  }

  function AllDays(dayOf: DayOf, answers: seq<DayAnswer>): seq<Capture> {
    if answers == [] then [] else FeedOf(dayOf, answers[0]) + AllDays(dayOf, answers[1..])
  }

  ghost predicate StrictlyDescending(answers: seq<DayAnswer>) {
    forall i, j :: 0 <= i < j < |answers| ==> answers[i].day != answers[j].day && DayBefore(answers[i].day, answers[j].day)
  }

  ghost predicate HasDay(answers: seq<DayAnswer>, day: Option<int>) {
    exists i :: 0 <= i < |answers| && answers[i].day == day
  }

  // ---- Selecting rows ----

  function ShownOn(dayOf: DayOf, day: Option<int>): Row -> bool {
    (r: Row) => Visible(r, false) && EffectiveDay(dayOf, r) == day
  }

  ghost function ShownOnOneOf(dayOf: DayOf, answers: seq<DayAnswer>): Row -> bool {
    (r: Row) => Visible(r, false) && HasDay(answers, EffectiveDay(dayOf, r))
  }

  lemma {:induction false} SelectAgrees(p: Row -> bool, q: Row -> bool, table: seq<Row>)
    requires forall r :: r in table ==> p(r) == q(r)
    ensures Select(p, table) == Select(q, table)
  {
    if table != [] {
      assert table[0] in table;
      SelectAgrees(p, q, table[1..]);
    }
  }

  lemma {:induction false} SelectTwice(p: Row -> bool, q: Row -> bool, both: Row -> bool, table: seq<Row>)
    requires forall r :: both(r) == (p(r) && q(r))
    ensures Select(q, Select(p, table)) == Select(both, table)
  {
    if table != [] {
      SelectTwice(p, q, both, table[1..]);
      var rest := Select(p, table[1..]);
      assert ([table[0]] + rest)[1..] == rest;
      assert [] + rest == rest;
    }
  }

  lemma SelectWithout(p: Row -> bool, t: seq<Row>, j: nat)
    requires j < |t|
    ensures multiset(Select(p, t)) ==
            multiset(Select(p, t[..j] + t[j + 1..])) + (if p(t[j]) then multiset{t[j]} else multiset{})
  {
    var before, after := t[..j], t[j + 1..];
    assert t == before + ([t[j]] + after);
    assert ([t[j]] + after)[1..] == after;
    SelectAppend(p, before, after);
    SelectAppend(p, before, [t[j]] + after);
  }

  lemma {:induction false} SelectOfPermutation(p: Row -> bool, s: seq<Row>, t: seq<Row>)
    requires multiset(s) == multiset(t)
    ensures multiset(Select(p, s)) == multiset(Select(p, t))
  {
    if s == [] {
      assert |multiset(t)| == 0;
    } else {
      var j := FirstOf(s, t);
      assert s[..0] + s[1..] == s[1..];
      SelectOfPermutation(p, s[1..], t[..j] + t[j + 1..]);
      SelectWithout(p, t, j);
      SelectWithout(p, s, 0);
    }
  }

  lemma {:induction false} SelectNone(p: Row -> bool, table: seq<Row>)
    requires forall r :: !p(r)
    ensures Select(p, table) == []
  {
    if table != [] {
      SelectNone(p, table[1..]);
    }
  }

  // ---- One day ----

  lemma RowsOfOneDay(dayOf: DayOf, table: seq<Row>, a: DayAnswer)
    requires Answered(dayOf, table, a)
    ensures multiset(a.normal + Matching(dayOf, a.legacy, a.day)) == multiset(Select(ShownOn(dayOf, a.day), table))
  {
    var legacyOn: Row -> bool := (r: Row) => Visible(r, false) && r.captureDay.None? && dayOf(r.mtime) == a.day;
    var normalOn: Row -> bool := (r: Row) => Visible(r, false) && r.captureDay.Some? && r.captureDay == a.day;
    SelectOfPermutation(ModifiedOn(dayOf, a.day), a.legacy, LegacyRows(table, false));
    SelectTwice(r => Visible(r, false) && r.captureDay.None?, ModifiedOn(dayOf, a.day), legacyOn, table);
    SelectSplits(ShownOn(dayOf, a.day), normalOn, legacyOn, table);
    if a.day.Some? {
      SelectAgrees(normalOn, r => Visible(r, false) && r.captureDay == Some(a.day.value), table);
    } else {
      SelectNone(normalOn, table);
    }
  }

  lemma CapturesShownOn(dayOf: DayOf, table: seq<Row>, day: Option<int>)
    ensures forall c :: c in multiset(Captures(dayOf, Select(ShownOn(dayOf, day), table))) ==>
              c.day == day && c == CaptureOf(dayOf, c.row)
  {
    var shown := Select(ShownOn(dayOf, day), table);
    SelectKeepsOnly(ShownOn(dayOf, day), table);
    CapturesAt(dayOf, shown);
    forall c | c in multiset(Captures(dayOf, shown)) ensures c.day == day && c == CaptureOf(dayOf, c.row) {
      var i :| 0 <= i < |shown| && Captures(dayOf, shown)[i] == c;
      assert shown[i] in shown;
    }
  }

  lemma SortByNameSorts(captures: seq<Capture>)
    ensures Sorted(ByName(), Sort(ByName(), captures))
    ensures multiset(Sort(ByName(), captures)) == multiset(captures)
  {
    OrdersAreTotal();
    SortSorts(ByName(), captures);
  }

  lemma FeedIsSortOfRows(dayOf: DayOf, table: seq<Row>, a: DayAnswer)
    requires Answered(dayOf, table, a)
    ensures FeedOf(dayOf, a) == Sort(ByName(), Captures(dayOf, a.normal + Matching(dayOf, a.legacy, a.day)))
  {
    if a.day.None? {
      assert |multiset(a.normal)| == 0;
      assert a.normal + Matching(dayOf, a.legacy, None) == Matching(dayOf, a.legacy, None);
    }
  }

  /** The feed of a day shows exactly the visible rows of that effective day, sorted by name and path. */
  lemma DayFeedShowsTheDay(dayOf: DayOf, table: seq<Row>, a: DayAnswer)
    requires Answered(dayOf, table, a)
    ensures Sorted(ByName(), FeedOf(dayOf, a))
    ensures multiset(FeedOf(dayOf, a)) == multiset(Captures(dayOf, Select(ShownOn(dayOf, a.day), table)))
    ensures forall c :: c in multiset(FeedOf(dayOf, a)) ==> c.day == a.day && c == CaptureOf(dayOf, c.row)
  {
    var rows := a.normal + Matching(dayOf, a.legacy, a.day);
    FeedIsSortOfRows(dayOf, table, a);
    SortByNameSorts(Captures(dayOf, rows));
    RowsOfOneDay(dayOf, table, a);
    CapturesOfPermutation(dayOf, rows, Select(ShownOn(dayOf, a.day), table));
    CapturesShownOn(dayOf, table, a.day);
  }

  /** No row appears on two days. */
  lemma NoRowOnTwoDays(dayOf: DayOf, table: seq<Row>, a: DayAnswer, b: DayAnswer, i: nat, j: nat)
    requires Answered(dayOf, table, a) && Answered(dayOf, table, b)
    requires i < |FeedOf(dayOf, a)| && j < |FeedOf(dayOf, b)|
    requires FeedOf(dayOf, a)[i].row == FeedOf(dayOf, b)[j].row
    ensures a.day == b.day
  {
    DayFeedShowsTheDay(dayOf, table, a);
    DayFeedShowsTheDay(dayOf, table, b);
    assert FeedOf(dayOf, a)[i] in multiset(FeedOf(dayOf, a));
    assert FeedOf(dayOf, b)[j] in multiset(FeedOf(dayOf, b));
  }

  // ---- All days ----

  lemma AppendSorted<T(!new)>(le: (T, T) -> bool, s: seq<T>, t: seq<T>)
    requires Sorted(le, s) && Sorted(le, t)
    requires forall a, b :: a in multiset(s) && b in multiset(t) ==> le(a, b)
    ensures Sorted(le, s + t)
  {
    forall i, j | 0 <= i < j < |s + t| ensures le((s + t)[i], (s + t)[j]) {
      if i < |s| <= j {
        assert s[i] in multiset(s) && t[j - |s|] in multiset(t);
      }
    }
  }

  lemma HasDayCons(answers: seq<DayAnswer>, day: Option<int>)
    requires answers != []
    ensures HasDay(answers, day) <==> day == answers[0].day || HasDay(answers[1..], day)
  {
    if HasDay(answers[1..], day) {
      var i :| 0 <= i < |answers[1..]| && answers[1..][i].day == day;
      assert answers[i + 1].day == day;
    }
    if HasDay(answers, day) {
      var i :| 0 <= i < |answers| && answers[i].day == day;
      assert i > 0 ==> answers[1..][i - 1].day == day;
    }
  }

  lemma SplitFirstDay(dayOf: DayOf, table: seq<Row>, answers: seq<DayAnswer>)
    requires answers != [] && StrictlyDescending(answers)
    ensures multiset(Captures(dayOf, Select(ShownOnOneOf(dayOf, answers), table))) ==
            multiset(Captures(dayOf, Select(ShownOn(dayOf, answers[0].day), table))) +
            multiset(Captures(dayOf, Select(ShownOnOneOf(dayOf, answers[1..]), table)))
  {
    forall r: Row
      ensures HasDay(answers, EffectiveDay(dayOf, r)) <==>
              EffectiveDay(dayOf, r) == answers[0].day || HasDay(answers[1..], EffectiveDay(dayOf, r))
    {
      HasDayCons(answers, EffectiveDay(dayOf, r));
    }
    SelectSplits(ShownOnOneOf(dayOf, answers), ShownOn(dayOf, answers[0].day), ShownOnOneOf(dayOf, answers[1..]), table);
    var first := Select(ShownOn(dayOf, answers[0].day), table);
    var others := Select(ShownOnOneOf(dayOf, answers[1..]), table);
    CapturesOfPermutation(dayOf, first + others, Select(ShownOnOneOf(dayOf, answers), table));
    CapturesAppend(dayOf, first, others);
  }

  lemma {:induction false} AllDaysSelect(dayOf: DayOf, table: seq<Row>, answers: seq<DayAnswer>)
    requires forall a :: a in answers ==> Answered(dayOf, table, a)
    requires StrictlyDescending(answers)
    ensures Sorted(ByDayThenName(), AllDays(dayOf, answers))
    ensures multiset(AllDays(dayOf, answers)) == multiset(Captures(dayOf, Select(ShownOnOneOf(dayOf, answers), table)))
    ensures forall c :: c in multiset(AllDays(dayOf, answers)) ==> HasDay(answers, c.day)
  {
    if answers == [] {
      SelectNone(ShownOnOneOf(dayOf, answers), table);
    } else {
      var head, rest := FeedOf(dayOf, answers[0]), AllDays(dayOf, answers[1..]);
      AllDaysSelect(dayOf, table, answers[1..]);
      DayFeedShowsTheDay(dayOf, table, answers[0]);
      SplitFirstDay(dayOf, table, answers);
      forall c: Capture | c in multiset(head + rest) ensures HasDay(answers, c.day) {
        HasDayCons(answers, c.day);
      }
      DayComesFirst(answers, head, rest);
    }
  }

  /** A day's sorted feed, before the sorted feeds of earlier days. */
  lemma DayComesFirst(answers: seq<DayAnswer>, head: seq<Capture>, rest: seq<Capture>)
    requires answers != [] && StrictlyDescending(answers)
    requires Sorted(ByName(), head) && forall c :: c in multiset(head) ==> c.day == answers[0].day
    requires Sorted(ByDayThenName(), rest) && forall c :: c in multiset(rest) ==> HasDay(answers[1..], c.day)
    ensures Sorted(ByDayThenName(), head + rest)
  {
    SortedWithinDay(head, answers[0].day);
    forall a: Capture, b: Capture | a in multiset(head) && b in multiset(rest) ensures ByDayThenName()(a, b) {
      var i :| 0 <= i < |answers[1..]| && answers[1..][i].day == b.day;
      assert answers[i + 1].day == b.day;
      DistinctDaysOrder(a, b);
    }
    AppendSorted(ByDayThenName(), head, rest);
  }

  lemma DistinctDaysOrder(a: Capture, b: Capture)
    requires a.day != b.day && DayBefore(a.day, b.day)
    ensures ByDayThenName()(a, b)
  {
    assert !ByDay()(b, a);
  }

  lemma SortedWithinDay(feed: seq<Capture>, day: Option<int>)
    requires Sorted(ByName(), feed)
    requires forall c :: c in multiset(feed) ==> c.day == day
    ensures Sorted(ByDayThenName(), feed)
  {
    forall i, j | 0 <= i < j < |feed| ensures ByDayThenName()(feed[i], feed[j]) {
      assert feed[i] in multiset(feed) && feed[j] in multiset(feed);
    }
  }

  /**
   The feeds of all effective days in descending order, then "undated", concatenate to a list that holds every row
   of the global feed and is sorted like it; without ties it is the global feed.
   */
  lemma DaysConcatenateToGlobalFeed(dayOf: DayOf, table: seq<Row>, answers: seq<DayAnswer>, dated: seq<Row>, legacy: seq<Row>)
    requires forall a :: a in answers ==> Answered(dayOf, table, a)
    requires StrictlyDescending(answers)
    requires forall r :: r in VisibleRows(table, false) ==> HasDay(answers, EffectiveDay(dayOf, r))
    requires Answers(dayOf, DatedRows(table, false), ByDayThenName(), dated)
    requires Scans(LegacyRows(table, false), legacy)
    ensures Sorted(ByDayThenName(), AllDays(dayOf, answers))
    ensures multiset(AllDays(dayOf, answers)) == multiset(GlobalFeed(dayOf, dated, legacy))
    ensures |AllDays(dayOf, answers)| == |GlobalFeed(dayOf, dated, legacy)|
    ensures NoTies(dayOf, table, false) ==> AllDays(dayOf, answers) == GlobalFeed(dayOf, dated, legacy)
  {
    AllDaysSelect(dayOf, table, answers);
    var visible: Row -> bool := r => Visible(r, false);
    forall r | r in table ensures visible(r) == ShownOnOneOf(dayOf, answers)(r) {
      if visible(r) {
        SelectHolds(visible, table, r);
      }
    }
    SelectAgrees(visible, ShownOnOneOf(dayOf, answers), table);
    SelectAgrees(visible, r => Visible(r, false), table);
    GlobalFeedSortsTheTable(dayOf, table, false, dated, legacy);
    assert |multiset(AllDays(dayOf, answers))| == |multiset(GlobalFeed(dayOf, dated, legacy))|;
    if NoTies(dayOf, table, false) {
      GlobalFeedIsDetermined(dayOf, table, false, dated, legacy, AllDays(dayOf, answers));
    }
  }

  lemma {:induction false} SelectHolds(p: Row -> bool, table: seq<Row>, r: Row)
    requires r in table && p(r)
    ensures r in Select(p, table)
  {
    if table[0] != r {
      SelectHolds(p, table[1..], r);
    }
  }

  /** The totals the per-day endpoints report. */
  function SumOfTotals(dayOf: DayOf, answers: seq<DayAnswer>): nat {
    if answers == [] then 0 else |FeedOf(dayOf, answers[0])| + SumOfTotals(dayOf, answers[1..])
  }

  lemma {:induction false} TotalsAddUp(dayOf: DayOf, answers: seq<DayAnswer>)
    ensures SumOfTotals(dayOf, answers) == |AllDays(dayOf, answers)|
  {
    if answers != [] {
      TotalsAddUp(dayOf, answers[1..]);
    }
  }
}
