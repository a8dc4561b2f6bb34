/**
 Clients that follow `next_offset`, with a separate request, and so separate query answers, for every page.
 */
module GalleryFollow {
  import opened Text
  import opened Sorting
  import opened Paging
  import opened Gallery

  // ---- Rows behind captures ----

  lemma {:induction false} SelectAll(p: Row -> bool, rows: seq<Row>)
    requires forall r :: r in rows ==> p(r)
    ensures Select(p, rows) == rows
  {
    if rows != [] {
      SelectAll(p, rows[1..]);
      assert rows == [rows[0]] + rows[1..];
    }
  }

  lemma {:induction false} SelectNoneOf(p: Row -> bool, rows: seq<Row>)
    requires forall r :: r in rows ==> !p(r)
    ensures Select(p, rows) == []
  {
    if rows != [] {
      SelectNoneOf(p, rows[1..]);
    }
  }

  function RowsOf(captures: seq<Capture>): (rows: seq<Row>)
    ensures |rows| == |captures|
  {
    seq(|captures|, i requires 0 <= i < |captures| => captures[i].row)
  }

  lemma RowsOfWithout(t: seq<Capture>, j: nat)
    requires j < |t|
    ensures multiset(RowsOf(t)) == multiset(RowsOf(t[..j] + t[j + 1..])) + multiset{t[j].row}
  {
    var before, after := RowsOf(t[..j]), RowsOf(t[j + 1..]);
    assert RowsOf(t) == before + [t[j].row] + after;
    assert RowsOf(t[..j] + t[j + 1..]) == before + after;
  }

  lemma {:induction false} RowsOfPermutation(s: seq<Capture>, t: seq<Capture>)
    requires multiset(s) == multiset(t)
    ensures multiset(RowsOf(s)) == multiset(RowsOf(t))
  {
    if s == [] {
      assert |multiset(t)| == 0;
    } else {
      var j := FirstOf(s, t);
      RowsOfPermutation(s[1..], t[..j] + t[j + 1..]);
      RowsOfWithout(t, j);
      assert RowsOf(s) == [s[0].row] + RowsOf(s[1..]);
    }
  }

  lemma RowsOfCaptures(dayOf: DayOf, rows: seq<Row>)
    ensures RowsOf(Captures(dayOf, rows)) == rows
  {
    CapturesAt(dayOf, rows);
  }

  lemma CapturesOfRows(dayOf: DayOf, captures: seq<Capture>)
    requires forall c :: c in captures ==> c == CaptureOf(dayOf, c.row)
    ensures Captures(dayOf, RowsOf(captures)) == captures
  {
    CapturesAt(dayOf, RowsOf(captures));
    forall i | 0 <= i < |captures| ensures Captures(dayOf, RowsOf(captures))[i] == captures[i] {
      assert captures[i] in captures;
    }
  }

  lemma CapturesAreOfRows(dayOf: DayOf, rows: seq<Row>)
    ensures forall c :: c in Captures(dayOf, rows) ==> c == CaptureOf(dayOf, c.row) && c.row in rows
  {
    CapturesAt(dayOf, rows);
    forall c | c in Captures(dayOf, rows) ensures c == CaptureOf(dayOf, c.row) && c.row in rows {
      var i :| 0 <= i < |rows| && Captures(dayOf, rows)[i] == c;
    }
  }

  /** An arrangement of captures is an arrangement of their rows. */
  lemma ArrangedRows(dayOf: DayOf, rows: seq<Row>, captures: seq<Capture>)
    requires multiset(captures) == multiset(Captures(dayOf, rows))
    ensures Captures(dayOf, RowsOf(captures)) == captures && multiset(RowsOf(captures)) == multiset(rows)
  {
    CapturesAreOfRows(dayOf, rows);
    SameMembers(captures, Captures(dayOf, rows));
    CapturesOfRows(dayOf, captures);
    RowsOfPermutation(captures, Captures(dayOf, rows));
    RowsOfCaptures(dayOf, rows);
  }

  // ---- The feeds that a request can meet ----

  ghost predicate ShowsWith(dayOf: DayOf, table: seq<Row>, favouriteOnly: bool, dated: seq<Row>, legacy: seq<Row>, feed: seq<Capture>) {
    && Answers(dayOf, DatedRows(table, favouriteOnly), ByDayThenName(), dated)
    && Scans(LegacyRows(table, favouriteOnly), legacy)
    && feed == GlobalFeed(dayOf, dated, legacy)
  }

  /** Some answers of the database to one request of the global feed. */
  ghost predicate MayShow(dayOf: DayOf, table: seq<Row>, favouriteOnly: bool, feed: seq<Capture>) {
    exists dated, legacy :: ShowsWith(dayOf, table, favouriteOnly, dated, legacy, feed)
  }

  lemma MayShowIsMerge(dayOf: DayOf, table: seq<Row>, favouriteOnly: bool, feed: seq<Capture>)
    ensures MayShow(dayOf, table, favouriteOnly, feed) <==>
            MayMerge(ByDayThenName(), Captures(dayOf, DatedRows(table, favouriteOnly)), Captures(dayOf, LegacyRows(table, favouriteOnly)), feed)
  {
    var xs, ys := Captures(dayOf, DatedRows(table, favouriteOnly)), Captures(dayOf, LegacyRows(table, favouriteOnly));
    if dated, legacy :| ShowsWith(dayOf, table, favouriteOnly, dated, legacy, feed) {
      AnswersMerge(dayOf, table, favouriteOnly, dated, legacy, feed);
    }
    if d, m :| Merges(ByDayThenName(), xs, ys, d, m, feed) {
      MergeIsAnswer(dayOf, table, favouriteOnly, d, m, feed);
    }
  }

  lemma AnswersMerge(dayOf: DayOf, table: seq<Row>, favouriteOnly: bool, dated: seq<Row>, legacy: seq<Row>, feed: seq<Capture>)
    requires ShowsWith(dayOf, table, favouriteOnly, dated, legacy, feed)
    ensures MayMerge(ByDayThenName(), Captures(dayOf, DatedRows(table, favouriteOnly)), Captures(dayOf, LegacyRows(table, favouriteOnly)), feed)
  {
    var datedRows, legacyRows := DatedRows(table, favouriteOnly), LegacyRows(table, favouriteOnly);
    CapturesOfPermutation(dayOf, dated, datedRows);
    CapturesOfPermutation(dayOf, legacy, legacyRows);
    CapturesAppend(dayOf, dated, legacy);
    assert Merges(ByDayThenName(), Captures(dayOf, datedRows), Captures(dayOf, legacyRows),
                  Captures(dayOf, dated), Captures(dayOf, legacy), feed);
  }

  lemma MergeIsAnswer(dayOf: DayOf, table: seq<Row>, favouriteOnly: bool, d: seq<Capture>, m: seq<Capture>, feed: seq<Capture>)
    requires Merges(ByDayThenName(), Captures(dayOf, DatedRows(table, favouriteOnly)), Captures(dayOf, LegacyRows(table, favouriteOnly)), d, m, feed)
    ensures MayShow(dayOf, table, favouriteOnly, feed)
  {
    ArrangedRows(dayOf, DatedRows(table, favouriteOnly), d);
    ArrangedRows(dayOf, LegacyRows(table, favouriteOnly), m);
    CapturesAppend(dayOf, RowsOf(d), RowsOf(m));
    assert GlobalFeed(dayOf, RowsOf(d), RowsOf(m)) == feed;
    assert ShowsWith(dayOf, table, favouriteOnly, RowsOf(d), RowsOf(m), feed);
  }

  /** No two different dated rows, and no two different legacy rows, share day, folded name and folded path. */
  ghost predicate NoSwaps(dayOf: DayOf, table: seq<Row>, favouriteOnly: bool) {
    && Tieless(ByDayThenName(), Captures(dayOf, DatedRows(table, favouriteOnly)))
    && Tieless(ByDayThenName(), Captures(dayOf, LegacyRows(table, favouriteOnly)))
  }

  /**
   Following the pages of the global feed, with any answers and any limits, collects every visible row exactly once.
   */
  ghost predicate EveryRowOnce(dayOf: DayOf, table: seq<Row>, favouriteOnly: bool) {
    var shown := Captures(dayOf, VisibleRows(table, favouriteOnly));
    AlwaysOnce((feed: seq<Capture>) => MayShow(dayOf, table, favouriteOnly, feed), |shown|, multiset(shown))
  }

  lemma VisibleAreDatedAndLegacy(dayOf: DayOf, table: seq<Row>, favouriteOnly: bool)
    ensures var both := Captures(dayOf, DatedRows(table, favouriteOnly)) + Captures(dayOf, LegacyRows(table, favouriteOnly));
            multiset(both) == multiset(Captures(dayOf, VisibleRows(table, favouriteOnly)))
            && |both| == |Captures(dayOf, VisibleRows(table, favouriteOnly))|
  {
    var dated, legacy, visible := DatedRows(table, favouriteOnly), LegacyRows(table, favouriteOnly), VisibleRows(table, favouriteOnly);
    SelectSplits(r => Visible(r, favouriteOnly),
                 r => Visible(r, favouriteOnly) && r.captureDay.Some?,
                 r => Visible(r, favouriteOnly) && r.captureDay.None?, table);
    assert multiset(dated + legacy) == multiset(visible);
    CapturesOfPermutation(dayOf, dated + legacy, visible);
    CapturesAppend(dayOf, dated, legacy);
    assert |multiset(Captures(dayOf, dated) + Captures(dayOf, legacy))| == |multiset(Captures(dayOf, visible))|;
  }

  lemma DatedAndLegacyDiffer(dayOf: DayOf, table: seq<Row>, favouriteOnly: bool)
    ensures Kinds((c: Capture) => c.row.captureDay.Some?,
                  Captures(dayOf, DatedRows(table, favouriteOnly)), Captures(dayOf, LegacyRows(table, favouriteOnly)))
  {
    CapturesAreOfRows(dayOf, DatedRows(table, favouriteOnly));
    CapturesAreOfRows(dayOf, LegacyRows(table, favouriteOnly));
    SelectKeepsOnly(r => Visible(r, favouriteOnly) && r.captureDay.Some?, table);
    SelectKeepsOnly(r => Visible(r, favouriteOnly) && r.captureDay.None?, table);
  }

  /** It does so if and only if no two rows of the same kind tie. */
  lemma EveryRowOnceIff(dayOf: DayOf, table: seq<Row>, favouriteOnly: bool)
    ensures EveryRowOnce(dayOf, table, favouriteOnly) <==> NoSwaps(dayOf, table, favouriteOnly)
  {
    var xs, ys := Captures(dayOf, DatedRows(table, favouriteOnly)), Captures(dayOf, LegacyRows(table, favouriteOnly));
    OrdersAreTotal();
    DatedAndLegacyDiffer(dayOf, table, favouriteOnly);
    VisibleAreDatedAndLegacy(dayOf, table, favouriteOnly);
    AlwaysOnceIffTieless(ByDayThenName(), xs, ys, (c: Capture) => c.row.captureDay.Some?);
    forall feed: seq<Capture> ensures MayShow(dayOf, table, favouriteOnly, feed) <==> Merged(ByDayThenName(), xs, ys)(feed) {
      MayShowIsMerge(dayOf, table, favouriteOnly, feed);
    }
    SameAllowed((feed: seq<Capture>) => MayShow(dayOf, table, favouriteOnly, feed), Merged(ByDayThenName(), xs, ys), |xs + ys|, multiset(xs + ys));
  }

  lemma SameAllowed<T(!new)>(a: seq<T> -> bool, b: seq<T> -> bool, total: nat, shown: multiset<T>)
    requires forall feed :: a(feed) <==> b(feed)
    ensures AlwaysOnce(a, total, shown) <==> AlwaysOnce(b, total, shown)
  {
    forall feedAt: nat -> seq<T> ensures Family(a, total, feedAt) <==> Family(b, total, feedAt) {
    }
  }

  /** Without ties at all there are none of this kind. */
  lemma NoTiesNoSwaps(dayOf: DayOf, table: seq<Row>, favouriteOnly: bool)
    requires NoTies(dayOf, table, favouriteOnly)
    ensures NoSwaps(dayOf, table, favouriteOnly)
  {
    VisibleAreDatedAndLegacy(dayOf, table, favouriteOnly);
    var xs, ys := Captures(dayOf, DatedRows(table, favouriteOnly)), Captures(dayOf, LegacyRows(table, favouriteOnly));
    assert forall c :: c in multiset(xs) || c in multiset(ys) ==> c in multiset(xs + ys);
  }

  // ---- What a client sees ----

  /** The photos of the responses that a client gets that starts at `offset` and follows `next_offset`. */
  ghost function Follow(onDisk: set<string>, feedAt: nat -> seq<Capture>, total: nat, offset: nat, limitAt: nat -> nat): seq<Photo>
    requires Limits(limitAt) && AllOfLength(feedAt, total)
    decreases total - offset
  {
    var response := Respond(onDisk, feedAt(offset), offset, limitAt(offset));
    if response.nextOffset.Some? then response.photos + Follow(onDisk, feedAt, total, response.nextOffset.value, limitAt)
    else response.photos
  }

  lemma {:induction false} FollowShowsCollected(
    onDisk: set<string>, feedAt: nat -> seq<Capture>, total: nat, offset: nat, limitAt: nat -> nat)
    requires Limits(limitAt) && AllOfLength(feedAt, total)
    ensures Follow(onDisk, feedAt, total, offset, limitAt) == Photos(onDisk, Collect(feedAt, total, offset, limitAt))
    decreases total - offset
  {
    var page := Slice(feedAt(offset), offset, limitAt(offset));
    var next := offset + |page|;
    if next < total {
      FollowShowsCollected(onDisk, feedAt, total, next, limitAt);
      PhotosAppend(onDisk, page, Collect(feedAt, total, next, limitAt));
    }
  }

  lemma PhotosAppend(onDisk: set<string>, s: seq<Capture>, t: seq<Capture>)
    ensures Photos(onDisk, s + t) == Photos(onDisk, s) + Photos(onDisk, t)
  {
  }

  ghost predicate Requests(dayOf: DayOf, table: seq<Row>, favouriteOnly: bool, feedAt: nat -> seq<Capture>) {
    forall offset :: MayShow(dayOf, table, favouriteOnly, feedAt(offset))
  }

  /** In that case the client sees the photos of the sorted visible rows, in order, each once. */
  lemma FollowVisitsEveryPhotoOnce(
    dayOf: DayOf, onDisk: set<string>, table: seq<Row>, favouriteOnly: bool, feedAt: nat -> seq<Capture>, limitAt: nat -> nat)
    requires NoSwaps(dayOf, table, favouriteOnly) && Requests(dayOf, table, favouriteOnly, feedAt) && Limits(limitAt)
    ensures var feed := feedAt(0);
            && Sorted(ByDayThenName(), feed)
            && multiset(feed) == multiset(Captures(dayOf, VisibleRows(table, favouriteOnly)))
            && AllOfLength(feedAt, |feed|)
            && Follow(onDisk, feedAt, |feed|, 0, limitAt) == Photos(onDisk, feed)
  {
    var feed := feedAt(0);
    var dated, legacy :| ShowsWith(dayOf, table, favouriteOnly, dated, legacy, feed);
    GlobalFeedSortsTheTable(dayOf, table, favouriteOnly, dated, legacy);
    forall offset: nat ensures feedAt(offset) == feed {
      OneFeed(dayOf, table, favouriteOnly, feedAt(offset), feed);
    }
    CollectsTheFeed(feedAt, feed, 0, limitAt);
    FollowShowsCollected(onDisk, feedAt, |feed|, 0, limitAt);
    assert feed[0..] == feed;
  }

  lemma OneFeed(dayOf: DayOf, table: seq<Row>, favouriteOnly: bool, f: seq<Capture>, g: seq<Capture>)
    requires NoSwaps(dayOf, table, favouriteOnly) && MayShow(dayOf, table, favouriteOnly, f) && MayShow(dayOf, table, favouriteOnly, g)
    ensures f == g
  {
    var xs, ys := Captures(dayOf, DatedRows(table, favouriteOnly)), Captures(dayOf, LegacyRows(table, favouriteOnly));
    OrdersAreTotal();
    MayShowIsMerge(dayOf, table, favouriteOnly, f);
    MayShowIsMerge(dayOf, table, favouriteOnly, g);
    DatedAndLegacyDiffer(dayOf, table, favouriteOnly);
    DeterminedIffTieless(ByDayThenName(), xs, ys, (c: Capture) => c.row.captureDay.Some?);
    assert Merged(ByDayThenName(), xs, ys)(f) && Merged(ByDayThenName(), xs, ys)(g);
  }

  /** Two dated rows that tie. */
  ghost predicate Tied(dayOf: DayOf, a: Row, b: Row) {
    && a != b && Visible(a, false) && Visible(b, false) && a.captureDay.Some? && b.captureDay.Some?
    && ByDayThenName()(CaptureOf(dayOf, a), CaptureOf(dayOf, b)) && ByDayThenName()(CaptureOf(dayOf, b), CaptureOf(dayOf, a))
  }

  lemma TiedRowsMayShow(dayOf: DayOf, a: Row, b: Row, p: Row, q: Row)
    requires Tied(dayOf, a, b) && ((p == a && q == b) || (p == b && q == a))
    ensures MayShow(dayOf, [a, b], false, [CaptureOf(dayOf, p), CaptureOf(dayOf, q)])
  {
    OrdersAreTotal();
    var feed := [CaptureOf(dayOf, p), CaptureOf(dayOf, q)];
    SelectAll(r => Visible(r, false) && r.captureDay.Some?, [a, b]);
    SelectNoneOf(r => Visible(r, false) && r.captureDay.None?, [a, b]);
    CapturesAt(dayOf, [p, q]);
    assert Captures(dayOf, [p, q]) == feed;
    assert [p, q] + [] == [p, q];
    SortOfSorted(ByDayThenName(), feed);
    assert multiset([p, q]) == multiset([a, b]);
    assert ShowsWith(dayOf, [a, b], false, [p, q], [], feed);
  }

  /** A table of two such rows: the answers to two requests of one row each may both show the same row. */
  lemma TieSplitsPages(dayOf: DayOf, a: Row, b: Row)
    requires Tied(dayOf, a, b)
    ensures var first, second := CaptureOf(dayOf, a), CaptureOf(dayOf, b);
            var feedAt: nat -> seq<Capture> := (o: nat) => if o == 0 then [first, second] else [second, first];
            && Requests(dayOf, [a, b], false, feedAt) && AllOfLength(feedAt, 2) && Limits((o: nat) => 1)
            && Collect(feedAt, 2, 0, (o: nat) => 1) == [first, first]
  {
    var first, second := CaptureOf(dayOf, a), CaptureOf(dayOf, b);
    var feedAt: nat -> seq<Capture> := (o: nat) => if o == 0 then [first, second] else [second, first];
    TiedRowsMayShow(dayOf, a, b, a, b);
    TiedRowsMayShow(dayOf, a, b, b, a);
    CollectsOneByOne(feedAt, 2, 0, (o: nat) => 1);
    var collected := Collect(feedAt, 2, 0, (o: nat) => 1);
    assert collected[0 - 0] == feedAt(0)[0] && collected[1 - 0] == feedAt(1)[1];
  }
}
