/** What a response of the gallery shows, and in which order, in the values of its fields. */
module GalleryOrder {
  import opened Text
  import opened Sorting
  import opened Gallery
  import opened GalleryDays
  import Paths

  // ---- The order of text ----

  /** `s` comes first in the dictionary, or is the same: it is a prefix, or has the smaller character where they differ. */
  ghost predicate NotAfter(s: string, t: string) {
    s <= t || exists k :: 0 <= k < |s| && k < |t| && s[..k] == t[..k] && s[k] < t[k]
  }

  lemma {:induction false} LeIsDictionaryOrder(s: string, t: string)
    ensures Le(s, t) <==> NotAfter(s, t)
  {
    if s != [] && t != [] {
      LeIsDictionaryOrder(s[1..], t[1..]);
      if s[0] == t[0] {
        NotAfterTails(s, t);
      } else {
        assert s[0] < t[0] ==> s[..0] == t[..0];
        HeadsDecide(s, t);
      }
    }
  }

  lemma HeadsDecide(s: string, t: string)
    requires s != [] && t != [] && s[0] != t[0]
    ensures NotAfter(s, t) <==> s[0] < t[0]
  {
    assert s[..0] == t[..0];
    forall k | 0 < k < |s| && k < |t| ensures s[..k] != t[..k] {
      assert s[..k][0] != t[..k][0];
    }
  }

  lemma NotAfterTails(s: string, t: string)
    requires s != [] && t != [] && s[0] == t[0]
    ensures NotAfter(s, t) <==> NotAfter(s[1..], t[1..])
  {
    var u, v := s[1..], t[1..];
    assert s == [s[0]] + u && t == [t[0]] + v;
    assert s <= t <==> u <= v;
    if k :| 0 <= k < |s| && k < |t| && s[..k] == t[..k] && s[k] < t[k] {
      assert k > 0;
      assert u[..k - 1] == s[..k][1..] && v[..k - 1] == t[..k][1..];
      assert u[k - 1] < v[k - 1];
    }
    if k :| 0 <= k < |u| && k < |v| && u[..k] == v[..k] && u[k] < v[k] {
      assert s[..k + 1] == [s[0]] + u[..k] && t[..k + 1] == [t[0]] + v[..k];
      assert s[k + 1] < t[k + 1];
    }
  }

  // ---- Newest first ----

  /** Later days first and undated photos last; within a day by name, and within a name by path, in any case. */
  ghost predicate Before(a: Capture, b: Capture) {
    && (b.day.Some? ==> a.day.Some? && a.day.value >= b.day.value)
    && (a.day == b.day ==> NotAfter(Fold(a.row.filename), Fold(b.row.filename)))
    && (a.day == b.day && Fold(a.row.filename) == Fold(b.row.filename) ==> NotAfter(Fold(a.filePath), Fold(b.filePath)))
  }

  ghost predicate NewestFirst(captures: seq<Capture>) {
    forall i, j :: 0 <= i < j < |captures| ==> Before(captures[i], captures[j])
  }

  lemma OrderIsNewestFirst(a: Capture, b: Capture)
    requires ByDayThenName()(a, b)
    ensures Before(a, b)
  {
    LeIsDictionaryOrder(Fold(a.row.filename), Fold(b.row.filename));
    LeIsDictionaryOrder(Fold(a.filePath), Fold(b.filePath));
    assert ByDay()(a, b);
    assert ByDay()(b, a) ==> ByName()(a, b);
    if a.day == b.day {
      SameDay(a, b);
      assert ByFilename()(a, b);
      assert ByFilename()(b, a) ==> ByPath()(a, b);
      LeTotal(Fold(a.row.filename), Fold(b.row.filename));
    }
  }

  lemma SameDay(a: Capture, b: Capture)
    requires a.day == b.day
    ensures ByDay()(b, a)
  {
  }

  lemma SortedIsNewestFirst(captures: seq<Capture>)
    requires Sorted(ByDayThenName(), captures)
    ensures NewestFirst(captures)
  {
    forall i, j | 0 <= i < j < |captures| ensures Before(captures[i], captures[j]) {
      OrderIsNewestFirst(captures[i], captures[j]);
    }
  }

  /** The global feed, and the days one after the other, run from the newest day to the oldest. */
  lemma FeedIsNewestFirst(dayOf: DayOf, table: seq<Row>, favouriteOnly: bool, dated: seq<Row>, legacy: seq<Row>)
    requires Answers(dayOf, DatedRows(table, favouriteOnly), ByDayThenName(), dated)
    requires Scans(LegacyRows(table, favouriteOnly), legacy)
    ensures NewestFirst(GlobalFeed(dayOf, dated, legacy))
  {
    GlobalFeedSortsTheTable(dayOf, table, favouriteOnly, dated, legacy);
    SortedIsNewestFirst(GlobalFeed(dayOf, dated, legacy));
  }

  /** The later a day the earlier it comes, and "undated" is last. */
  ghost predicate LatestFirst(answers: seq<DayAnswer>) {
    forall i, j :: 0 <= i < j < |answers| ==>
      answers[i].day.Some? && (answers[j].day.Some? ==> answers[i].day.value > answers[j].day.value)
  }

  lemma LatestFirstDescends(answers: seq<DayAnswer>)
    requires LatestFirst(answers)
    ensures StrictlyDescending(answers)
  {
    forall i, j | 0 <= i < j < |answers|
      ensures DayBefore(answers[i].day, answers[j].day) && !DayBefore(answers[j].day, answers[i].day)
    {
    }
  }

  lemma DaysAreNewestFirst(dayOf: DayOf, table: seq<Row>, answers: seq<DayAnswer>)
    requires (forall a :: a in answers ==> Answered(dayOf, table, a)) && LatestFirst(answers)
    ensures NewestFirst(AllDays(dayOf, answers))
  {
    LatestFirstDescends(answers);
    AllDaysSelect(dayOf, table, answers);
    SortedIsNewestFirst(AllDays(dayOf, answers));
  }

  // ---- Responses ----

  /** The path of a photo is its destination, or where it comes from when it has none. */
  predicate HasPath(r: Row, path: string) {
    path == if r.destPath.Some? && r.destPath.value != "" then r.destPath.value else r.sourcePath
  }

  /** The photo shows the row: its path, name (that of the path if it has none), day, favourite flag, and whether the file exists. */
  predicate ShowsRow(dayOf: DayOf, onDisk: set<string>, r: Row, p: Photo) {
    && HasPath(r, p.id) && p.id != ""
    && p.filename == (if r.filename != "" then r.filename else Paths.Name(p.id))
    && p.day == (if r.captureDay.Some? then r.captureDay else dayOf(r.mtime))
    && p.favourite == r.favourite
    && (p.onDisk <==> p.id in onDisk)
  }

  lemma PhotoShowsRow(dayOf: DayOf, onDisk: set<string>, favouriteOnly: bool, r: Row)
    requires Visible(r, favouriteOnly)
    ensures ShowsRow(dayOf, onDisk, r, PhotoOf(onDisk, CaptureOf(dayOf, r))) && (favouriteOnly ==> r.favourite)
  {
  }

  /** A row is visible if and only if it has a path and, where only favourites are asked for, is one. */
  lemma VisibleIff(r: Row, favouriteOnly: bool, path: string)
    requires HasPath(r, path)
    ensures Visible(r, favouriteOnly) <==> path != "" && (!favouriteOnly || r.favourite)
  {
  }

  /** The photos of a page are on the page in the order of their days, the newest first and undated ones last. */
  ghost predicate PhotosNewestFirst(photos: seq<Photo>) {
    forall i, j :: 0 <= i < j < |photos| && photos[j].day.Some? ==> photos[i].day.Some? && photos[i].day.value >= photos[j].day.value
  }

  /**
   A response of the global feed: each photo shows a row of the table, a favourite if only these are asked for, and the
   page runs from the newest day to the oldest.
   */
  lemma ResponseShowsRows(
    dayOf: DayOf, onDisk: set<string>, table: seq<Row>, favouriteOnly: bool, dated: seq<Row>, legacy: seq<Row>, offset: nat, limit: nat)
    requires Answers(dayOf, DatedRows(table, favouriteOnly), ByDayThenName(), dated)
    requires Scans(LegacyRows(table, favouriteOnly), legacy)
    ensures var response := Respond(onDisk, GlobalFeed(dayOf, dated, legacy), offset, limit);
            && PhotosNewestFirst(response.photos)
            && (forall p :: p in response.photos ==> ShowsSome(dayOf, onDisk, table, favouriteOnly, p))
            && response.count == |VisibleRows(table, favouriteOnly)|
  {
    var feed := GlobalFeed(dayOf, dated, legacy);
    FeedIsNewestFirst(dayOf, table, favouriteOnly, dated, legacy);
    GlobalFeedSortsTheTable(dayOf, table, favouriteOnly, dated, legacy);
    FeedHasVisibleRows(dayOf, table, favouriteOnly, feed);
    PageOfFeed(dayOf, onDisk, table, favouriteOnly, feed, offset, limit);
  }

  lemma PageOfFeed(dayOf: DayOf, onDisk: set<string>, table: seq<Row>, favouriteOnly: bool, feed: seq<Capture>, offset: nat, limit: nat)
    requires NewestFirst(feed) && forall c :: c in feed ==> FromTable(dayOf, table, favouriteOnly, c)
    ensures var photos := Photos(onDisk, Slice(feed, offset, limit));
            PhotosNewestFirst(photos) && forall p :: p in photos ==> ShowsSome(dayOf, onDisk, table, favouriteOnly, p)
  {
    PageIsPartOf(feed, offset, limit);
    var page := Slice(feed, offset, limit);
    forall c | c in page ensures FromTable(dayOf, table, favouriteOnly, c) {
      var k :| 0 <= k < |page| && page[k] == c;
      assert feed[offset + k] in feed;
    }
    PageShowsRows(dayOf, onDisk, table, favouriteOnly, page);
    PageIsNewestFirst(onDisk, feed, page, offset);
  }

  /** A response has at most as many photos as asked for, fewer only at the end, and points behind them while more remain. */
  lemma NextPageIff(onDisk: set<string>, feed: seq<Capture>, offset: nat, limit: nat)
    ensures var response := Respond(onDisk, feed, offset, limit);
            && response.count == |feed| && |response.photos| <= limit
            && (|response.photos| < limit ==> offset + |response.photos| >= |feed|)
            && (response.hasMore <==> offset + |response.photos| < |feed|)
            && response.nextOffset == if response.hasMore then Some(offset + |response.photos|) else None
  {
  }

  ghost predicate FromTable(dayOf: DayOf, table: seq<Row>, favouriteOnly: bool, c: Capture) {
    exists r: Row :: r in table && Visible(r, favouriteOnly) && c == CaptureOf(dayOf, r)
  }

  lemma PageShowsRows(dayOf: DayOf, onDisk: set<string>, table: seq<Row>, favouriteOnly: bool, page: seq<Capture>)
    requires forall c :: c in page ==> FromTable(dayOf, table, favouriteOnly, c)
    ensures forall p :: p in Photos(onDisk, page) ==> ShowsSome(dayOf, onDisk, table, favouriteOnly, p)
  {
    forall p | p in Photos(onDisk, page) ensures ShowsSome(dayOf, onDisk, table, favouriteOnly, p) {
      var k :| 0 <= k < |page| && Photos(onDisk, page)[k] == p;
      assert page[k] in page;
      var r: Row :| r in table && Visible(r, favouriteOnly) && page[k] == CaptureOf(dayOf, r);
      PhotoShowsRow(dayOf, onDisk, favouriteOnly, r);
    }
  }

  lemma PageIsNewestFirst(onDisk: set<string>, feed: seq<Capture>, page: seq<Capture>, offset: nat)
    requires NewestFirst(feed)
    requires forall k {:trigger page[k]} :: 0 <= k < |page| ==> offset + k < |feed| && page[k] == feed[offset + k]
    ensures PhotosNewestFirst(Photos(onDisk, page))
  {
    forall i, j | 0 <= i < j < |page| ensures Before(page[i], page[j]) {
      var a, b := page[i], page[j];
      assert a == feed[offset + i] && b == feed[offset + j];
    }
  }

  ghost predicate ShowsSome(dayOf: DayOf, onDisk: set<string>, table: seq<Row>, favouriteOnly: bool, p: Photo) {
    exists r :: r in table && (favouriteOnly ==> r.favourite) && ShowsRow(dayOf, onDisk, r, p)
  }

  lemma PageIsPartOf(feed: seq<Capture>, offset: nat, limit: nat)
    ensures var page := Slice(feed, offset, limit);
            |page| <= limit && forall k {:trigger page[k]} :: 0 <= k < |page| ==> offset + k < |feed| && page[k] == feed[offset + k]
  {
  }

  lemma FeedHasVisibleRows(dayOf: DayOf, table: seq<Row>, favouriteOnly: bool, feed: seq<Capture>)
    requires multiset(feed) == multiset(Captures(dayOf, VisibleRows(table, favouriteOnly)))
    ensures |feed| == |VisibleRows(table, favouriteOnly)|
    ensures forall c :: c in feed ==> FromTable(dayOf, table, favouriteOnly, c)
  {
    var visible := VisibleRows(table, favouriteOnly);
    CapturesAt(dayOf, visible);
    assert |multiset(feed)| == |multiset(Captures(dayOf, visible))|;
    SelectKeepsOnly(r => Visible(r, favouriteOnly), table);
    forall c | c in feed ensures FromTable(dayOf, table, favouriteOnly, c) {
      assert c in multiset(feed);
      assert c in Captures(dayOf, visible);
      var i :| 0 <= i < |visible| && Captures(dayOf, visible)[i] == c;
      assert visible[i] in visible;
    }
  }
}
