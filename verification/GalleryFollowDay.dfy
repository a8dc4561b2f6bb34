/** The same for the pages of one day. */
module GalleryFollowDay {
  import opened Text
  import opened Sorting
  import opened Paging
  import opened Gallery
  import opened GalleryDays
  import opened GalleryFollow

  /** The rows that the query with ORDER BY selects. */
  function NormalRows(table: seq<Row>, request: DayRequest): seq<Row> {
    match request
    case Canonical(d) => RowsOfDay(table, d)
    case Loose(d) => RowsOfDay(table, d)
    case _ => []
  }

  function MatchedRows(dayOf: DayOf, table: seq<Row>, request: DayRequest): seq<Row> {
    Matched(dayOf, request, LegacyRows(table, false))
  }

  ghost predicate DayShowsWith(dayOf: DayOf, table: seq<Row>, request: DayRequest, normal: seq<Row>, legacy: seq<Row>, feed: seq<Capture>) {
    && Answers(dayOf, NormalRows(table, request), ByName(), normal)
    && Scans(LegacyRows(table, false), legacy)
    && feed == DayFeed(dayOf, request, normal, legacy)
  }

  /** Some answers of the database to one request for the day. */
  ghost predicate MayShowDay(dayOf: DayOf, table: seq<Row>, request: DayRequest, feed: seq<Capture>) {
    exists normal, legacy :: DayShowsWith(dayOf, table, request, normal, legacy, feed)
  }

  lemma MatchedOfPermutation(dayOf: DayOf, request: DayRequest, s: seq<Row>, t: seq<Row>)
    requires multiset(s) == multiset(t)
    ensures multiset(Matched(dayOf, request, s)) == multiset(Matched(dayOf, request, t))
  {
    if request.Canonical? || request.Undated? {
      SelectOfPermutation(ModifiedOn(dayOf, if request.Canonical? then Some(request.day) else None), s, t);
    }
  }

  /** A scan of legacy rows in which the matching ones come first, in any order. */
  lemma MatchedFirst(p: Row -> bool, rows: seq<Row>, matched: seq<Row>) returns (scan: seq<Row>)
    requires multiset(matched) == multiset(Select(p, rows))
    ensures multiset(scan) == multiset(rows) && Select(p, scan) == matched
  {
    var rest := Select(r => !p(r), rows);
    scan := matched + rest;
    SelectSplits(r => true, p, r => !p(r), rows);
    SelectAll(r => true, rows);
    SelectKeepsOnly(p, rows);
    SelectKeepsOnly(r => !p(r), rows);
    forall r | r in matched ensures p(r) {
      assert r in multiset(matched);
      assert r in Select(p, rows);
    }
    SelectAll(p, matched);
    SelectNoneOf(p, rest);
    SelectAppend(p, matched, rest);
  }

  lemma ScanFor(dayOf: DayOf, request: DayRequest, rows: seq<Row>, matched: seq<Row>) returns (scan: seq<Row>)
    requires multiset(matched) == multiset(Matched(dayOf, request, rows))
    ensures multiset(scan) == multiset(rows) && Matched(dayOf, request, scan) == matched
  {
    if request.Canonical? || request.Undated? {
      scan := MatchedFirst(ModifiedOn(dayOf, if request.Canonical? then Some(request.day) else None), rows, matched);
    } else {
      assert |multiset(matched)| == 0;
      scan := rows;
    }
  }

  lemma MayShowDayIsMerge(dayOf: DayOf, table: seq<Row>, request: DayRequest, feed: seq<Capture>)
    requires !request.Malformed?
    ensures MayShowDay(dayOf, table, request, feed) <==>
            MayMerge(ByName(), Captures(dayOf, NormalRows(table, request)), Captures(dayOf, MatchedRows(dayOf, table, request)), feed)
  {
    var xs, ys := Captures(dayOf, NormalRows(table, request)), Captures(dayOf, MatchedRows(dayOf, table, request));
    if normal, legacy :| DayShowsWith(dayOf, table, request, normal, legacy, feed) {
      DayAnswersMerge(dayOf, table, request, normal, legacy, feed);
    }
    if d, m :| Merges(ByName(), xs, ys, d, m, feed) {
      MergeIsDayAnswer(dayOf, table, request, d, m, feed);
    }
  }

  lemma DayAnswersMerge(dayOf: DayOf, table: seq<Row>, request: DayRequest, normal: seq<Row>, legacy: seq<Row>, feed: seq<Capture>)
    requires !request.Malformed? && DayShowsWith(dayOf, table, request, normal, legacy, feed)
    ensures MayMerge(ByName(), Captures(dayOf, NormalRows(table, request)), Captures(dayOf, MatchedRows(dayOf, table, request)), feed)
  {
    if request.Undated? {
      assert |multiset(normal)| == 0;
    }
    DayFeedIsSort(dayOf, request, normal, legacy);
    MatchedOfPermutation(dayOf, request, legacy, LegacyRows(table, false));
    CapturesOfPermutation(dayOf, normal, NormalRows(table, request));
    CapturesOfPermutation(dayOf, Matched(dayOf, request, legacy), MatchedRows(dayOf, table, request));
    assert Merges(ByName(), Captures(dayOf, NormalRows(table, request)), Captures(dayOf, MatchedRows(dayOf, table, request)),
                  Captures(dayOf, normal), Captures(dayOf, Matched(dayOf, request, legacy)), feed);
  }

  lemma MergeIsDayAnswer(dayOf: DayOf, table: seq<Row>, request: DayRequest, d: seq<Capture>, m: seq<Capture>, feed: seq<Capture>)
    requires !request.Malformed?
    requires Merges(ByName(), Captures(dayOf, NormalRows(table, request)), Captures(dayOf, MatchedRows(dayOf, table, request)), d, m, feed)
    ensures MayShowDay(dayOf, table, request, feed)
  {
    ArrangedRows(dayOf, NormalRows(table, request), d);
    ArrangedRows(dayOf, MatchedRows(dayOf, table, request), m);
    var scan := ScanFor(dayOf, request, LegacyRows(table, false), RowsOf(m));
    if request.Undated? {
      assert |multiset(RowsOf(d))| == 0;
    }
    DayFeedIsSort(dayOf, request, RowsOf(d), scan);
    assert DayShowsWith(dayOf, table, request, RowsOf(d), scan, feed);
  }

  /** No two different rows of the same kind that the day shows have the same folded name and path. */
  ghost predicate NoSwapsOnDay(dayOf: DayOf, table: seq<Row>, request: DayRequest) {
    && Tieless(ByName(), Captures(dayOf, NormalRows(table, request)))
    && Tieless(ByName(), Captures(dayOf, MatchedRows(dayOf, table, request)))
  }

  /** The captures that the day shows. */
  function ShownOnDay(dayOf: DayOf, table: seq<Row>, request: DayRequest): seq<Capture> {
    Captures(dayOf, NormalRows(table, request)) + Captures(dayOf, MatchedRows(dayOf, table, request))
  }

  /** They are the visible rows of that effective day. */
  lemma ShownAreTheDays(dayOf: DayOf, table: seq<Row>, day: Option<int>)
    ensures multiset(ShownOnDay(dayOf, table, RequestFor(day))) == multiset(Captures(dayOf, Select(ShownOn(dayOf, day), table)))
  {
    var request := RequestFor(day);
    var normal, legacy := NormalRows(table, request), LegacyRows(table, false);
    OrdersAreTotal();
    SortSorts(ByName(), Captures(dayOf, normal));
    ArrangedRows(dayOf, normal, Sort(ByName(), Captures(dayOf, normal)));
    var a := DayAnswer(day, RowsOf(Sort(ByName(), Captures(dayOf, normal))), legacy);
    RowsOfOneDay(dayOf, table, a);
    var matched := MatchedRows(dayOf, table, request);
    assert multiset(normal + matched) == multiset(a.normal + Matching(dayOf, a.legacy, a.day));
    CapturesOfPermutation(dayOf, normal + matched, Select(ShownOn(dayOf, day), table));
    CapturesAppend(dayOf, normal, matched);
  }

  /** Following the pages of the day, with any answers and any limits, collects every row of it exactly once. */
  ghost predicate EveryRowOfDayOnce(dayOf: DayOf, table: seq<Row>, request: DayRequest) {
    var shown := ShownOnDay(dayOf, table, request);
    AlwaysOnce((feed: seq<Capture>) => MayShowDay(dayOf, table, request, feed), |shown|, multiset(shown))
  }

  lemma NormalAndMatchedDiffer(dayOf: DayOf, table: seq<Row>, request: DayRequest)
    ensures Kinds((c: Capture) => c.row.captureDay.Some?,
                  Captures(dayOf, NormalRows(table, request)), Captures(dayOf, MatchedRows(dayOf, table, request)))
  {
    CapturesAreOfRows(dayOf, NormalRows(table, request));
    CapturesAreOfRows(dayOf, MatchedRows(dayOf, table, request));
    if request.Canonical? || request.Loose? {
      SelectKeepsOnly(r => Visible(r, false) && r.captureDay == Some(request.day), table);
    }
    SelectKeepsOnly(r => Visible(r, false) && r.captureDay.None?, table);
    if request.Canonical? || request.Undated? {
      SelectKeepsOnly(ModifiedOn(dayOf, if request.Canonical? then Some(request.day) else None), LegacyRows(table, false));
    }
  }

  /** It does so if and only if no two rows of the same kind tie. */
  lemma EveryRowOfDayOnceIff(dayOf: DayOf, table: seq<Row>, request: DayRequest)
    requires !request.Malformed?
    ensures EveryRowOfDayOnce(dayOf, table, request) <==> NoSwapsOnDay(dayOf, table, request)
  {
    var xs, ys := Captures(dayOf, NormalRows(table, request)), Captures(dayOf, MatchedRows(dayOf, table, request));
    OrdersAreTotal();
    NormalAndMatchedDiffer(dayOf, table, request);
    AlwaysOnceIffTieless(ByName(), xs, ys, (c: Capture) => c.row.captureDay.Some?);
    forall feed: seq<Capture> ensures MayShowDay(dayOf, table, request, feed) <==> Merged(ByName(), xs, ys)(feed) {
      MayShowDayIsMerge(dayOf, table, request, feed);
    }
    SameAllowed((feed: seq<Capture>) => MayShowDay(dayOf, table, request, feed), Merged(ByName(), xs, ys), |xs + ys|, multiset(xs + ys));
  }
}
