/** The `captures` table as the feeds read it: what an upsert stores is what the gallery shows. */
module GalleryTable {
  import opened Text
  import opened Gallery
  import opened GalleryDays
  import Dates
  import Db = Captures
  import CaptureStore

  /** Days as numbers. */
  type Numbering = Dates.Day -> int

  /** A stored row, with the columns that the feeds read. */
  function FeedRow(number: Numbering, r: Db.Row): Row {
    Row(r.id, r.filename, r.sourcePath, Some(r.destPath),
        if r.captureDay.Some? then Some(number(r.captureDay.value)) else None, r.mtime, r.favourite)
  }

  /** The rows of the table, each once, in any order. */
  ghost predicate IsListing(number: Numbering, table: Db.Table, rows: seq<Row>) {
    && (forall i, j :: 0 <= i < j < |rows| ==> rows[i].id != rows[j].id)
    && (forall r :: r in rows ==> r.id in table && r == FeedRow(number, table[r.id]))
    && (forall id :: id in table ==> FeedRow(number, table[id]) in rows)
  }

  /** A listed row with a path is in the feed of its effective day. */
  lemma VisibleRowIsInItsDay(dayOf: DayOf, rows: seq<Row>, r: Row, a: DayAnswer)
    requires r in rows && Visible(r, false) && Answered(dayOf, rows, a) && EffectiveDay(dayOf, r) == a.day
    ensures CaptureOf(dayOf, r) in FeedOf(dayOf, a)
  {
    var shown := Select(ShownOn(dayOf, a.day), rows);
    SelectHolds(ShownOn(dayOf, a.day), rows, r);
    CapturesAt(dayOf, shown);
    var i :| 0 <= i < |shown| && shown[i] == r;
    assert Captures(dayOf, shown)[i] == CaptureOf(dayOf, r);
    DayFeedShowsTheDay(dayOf, rows, a);
    assert CaptureOf(dayOf, r) in multiset(Captures(dayOf, shown));
    assert CaptureOf(dayOf, r) in multiset(FeedOf(dayOf, a));
  }

  lemma VisibleRowIsInTheFeed(dayOf: DayOf, rows: seq<Row>, r: Row, dated: seq<Row>, legacy: seq<Row>)
    requires r in rows && Visible(r, false)
    requires Answers(dayOf, DatedRows(rows, false), ByDayThenName(), dated) && Scans(LegacyRows(rows, false), legacy)
    ensures CaptureOf(dayOf, r) in GlobalFeed(dayOf, dated, legacy)
  {
    var visible := VisibleRows(rows, false);
    SelectHolds(x => Visible(x, false), rows, r);
    CapturesAt(dayOf, visible);
    var i :| 0 <= i < |visible| && visible[i] == r;
    assert Captures(dayOf, visible)[i] == CaptureOf(dayOf, r);
    GlobalFeedSortsTheTable(dayOf, rows, false, dated, legacy);
    assert CaptureOf(dayOf, r) in multiset(Captures(dayOf, visible));
    assert CaptureOf(dayOf, r) in multiset(GlobalFeed(dayOf, dated, legacy));
  }

  lemma StoredUnderItsDay(
    env: Db.Env, known: map<string, string>, table: Db.Table, batch: seq<Db.Incoming>, c: Db.Incoming, t: Dates.Timestamp)
    requires Db.Apart(known, batch) && c in batch && env.filenameDate(c.filename) == Some(t)
    ensures var id := Db.ResolvedId(known, c);
            var after := Db.Upsert(env, known, table, batch);
            id in after && after[id].destPath == c.destPath && after[id].captureDay == Some(Dates.DayOfDateTime(t))
  {
    Db.UpsertOfApart(env, known, table, batch);
    CaptureStore.FilenameDateWins(env, c.filename, c.dateText);
  }

  /**
   A photo with a camera name that an upsert has stored is shown by the feed of the day in its name, and by the global
   feed, whatever else its record says and however the database orders its answers.
   */
  lemma UpsertedPhotoIsShown(
    env: Db.Env, number: Numbering, known: map<string, string>, table: Db.Table, batch: seq<Db.Incoming>,
    c: Db.Incoming, t: Dates.Timestamp, dayOf: DayOf, rows: seq<Row>, a: DayAnswer, dated: seq<Row>, legacy: seq<Row>)
    requires Db.Apart(known, batch) && c in batch && c.destPath != "" && env.filenameDate(c.filename) == Some(t)
    requires IsListing(number, Db.Upsert(env, known, table, batch), rows)
    requires Answered(dayOf, rows, a) && a.day == Some(number(Dates.DayOfDateTime(t)))
    requires Answers(dayOf, DatedRows(rows, false), ByDayThenName(), dated) && Scans(LegacyRows(rows, false), legacy)
    ensures var id := Db.ResolvedId(known, c);
            var after := Db.Upsert(env, known, table, batch);
            && id in after && after[id].destPath == c.destPath
            && CaptureOf(dayOf, FeedRow(number, after[id])) in FeedOf(dayOf, a)
            && CaptureOf(dayOf, FeedRow(number, after[id])) in GlobalFeed(dayOf, dated, legacy)
  {
    var id := Db.ResolvedId(known, c);
    var after := Db.Upsert(env, known, table, batch);
    StoredUnderItsDay(env, known, table, batch, c, t);
    var r := FeedRow(number, after[id]);
    assert r.captureDay == a.day && FilePath(r) == c.destPath;
    VisibleRowIsInItsDay(dayOf, rows, r, a);
    VisibleRowIsInTheFeed(dayOf, rows, r, dated, legacy);
  }
}
