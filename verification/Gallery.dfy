/**
 The gallery feeds: `load_photos_page` and `load_captures_for_day`, and the endpoints that page through them.
 Each query answer of the SQL engine is an input: the rows it selects, in any order that its ORDER BY allows.
 */
module Gallery {
  import opened Text
  import opened Sorting
  import Paths

  /** The columns of `captures` that the feeds read. Days count from any fixed origin. */
  datatype Row = Row(
    id: string,
    filename: string,
    sourcePath: string,
    destPath: Option<string>,
    captureDay: Option<int>,
    mtime: int,
    favourite: bool)

  /** A row as a feed returns it; `day` is `None` for "undated". */
  datatype Capture = Capture(row: Row, filePath: string, day: Option<int>)

  /** The day in the URL of the per-day feed. */
  datatype DayRequest =
    | Undated
    | Canonical(day: int)  // the text that `strftime("%Y-%m-%d")` produces
    | Loose(day: int)      // another text that `strptime` accepts for the same day
    | Malformed

  /** `datetime.fromtimestamp(mtime)` as a day, or `None` where it raises. */
  type DayOf = int -> Option<int>

  function FilePath(r: Row): string {
    match r.destPath
    case Some(d) => if d != "" then d else r.sourcePath
    case None => r.sourcePath
  }

  predicate Visible(r: Row, favouriteOnly: bool) {
    FilePath(r) != "" && (favouriteOnly ==> r.favourite)
  }

  function EffectiveDay(dayOf: DayOf, r: Row): Option<int> {
    if r.captureDay.Some? then r.captureDay else dayOf(r.mtime)
  }

  function CaptureOf(dayOf: DayOf, r: Row): Capture {
    Capture(r, FilePath(r), EffectiveDay(dayOf, r))
  }

  function Captures(dayOf: DayOf, rows: seq<Row>): seq<Capture> {
    if rows == [] then [] else [CaptureOf(dayOf, rows[0])] + Captures(dayOf, rows[1..])
  }

  // ---- Orders ----

  /** Later days first, "undated" last. */
  predicate DayBefore(a: Option<int>, b: Option<int>) {
    match b
    case None => true
    case Some(y) => a.Some? && a.value >= y
  }

  function ByDay(): (Capture, Capture) -> bool {
    (a: Capture, b: Capture) => DayBefore(a.day, b.day)
  }

  function ByFilename(): (Capture, Capture) -> bool {
    (a: Capture, b: Capture) => Le(Fold(a.row.filename), Fold(b.row.filename))
  }

  function ByPath(): (Capture, Capture) -> bool {
    (a: Capture, b: Capture) => Le(Fold(a.filePath), Fold(b.filePath))
  }

  function ByName(): (Capture, Capture) -> bool {
    Lex(ByFilename(), ByPath())
  }

  function ByDayThenName(): (Capture, Capture) -> bool {
    Lex(ByDay(), ByName())
  }

  lemma OrdersAreTotal()
    ensures TotalPreorder(ByDay()) && TotalPreorder(ByName()) && TotalPreorder(ByDayThenName())
  {
    forall a: Capture, b: Capture
      ensures ByFilename()(a, b) || ByFilename()(b, a)
      ensures ByPath()(a, b) || ByPath()(b, a)
    {
      LeTotal(Fold(a.row.filename), Fold(b.row.filename));
      LeTotal(Fold(a.filePath), Fold(b.filePath));
    }
    forall a: Capture, b: Capture, c: Capture | ByFilename()(a, b) && ByFilename()(b, c)
      ensures ByFilename()(a, c)
    {
      LeTransitive(Fold(a.row.filename), Fold(b.row.filename), Fold(c.row.filename));
    }
    forall a: Capture, b: Capture, c: Capture | ByPath()(a, b) && ByPath()(b, c)
      ensures ByPath()(a, c)
    {
      LeTransitive(Fold(a.filePath), Fold(b.filePath), Fold(c.filePath));
    }
    assert TotalPreorder(ByDay());
    LexIsTotalPreorder(ByFilename(), ByPath());
    LexIsTotalPreorder(ByDay(), ByName());
  }

  // ---- What the queries select ----

  function Select(p: Row -> bool, table: seq<Row>): seq<Row> {
    if table == [] then [] else (if p(table[0]) then [table[0]] else []) + Select(p, table[1..])
  }

  function VisibleRows(table: seq<Row>, favouriteOnly: bool): seq<Row> {
    Select(r => Visible(r, favouriteOnly), table)
  }

  function DatedRows(table: seq<Row>, favouriteOnly: bool): seq<Row> {
    Select(r => Visible(r, favouriteOnly) && r.captureDay.Some?, table)
  }

  function LegacyRows(table: seq<Row>, favouriteOnly: bool): seq<Row> {
    Select(r => Visible(r, favouriteOnly) && r.captureDay.None?, table)
  }

  function RowsOfDay(table: seq<Row>, day: int): seq<Row> {
    Select(r => Visible(r, false) && r.captureDay == Some(day), table)
  }

  /** The rows a query selects, in an order that its ORDER BY allows; ties may come in any order. */
  ghost predicate Answers(dayOf: DayOf, selected: seq<Row>, order: (Capture, Capture) -> bool, answer: seq<Row>) {
    multiset(answer) == multiset(selected) && Sorted(order, Captures(dayOf, answer))
  }

  /** A query without ORDER BY. */
  ghost predicate Scans(selected: seq<Row>, answer: seq<Row>) {
    multiset(answer) == multiset(selected)
  }

  // ---- The feeds as simple definitions ----

  /** Every row the global feed shows: sort everything. */
  function GlobalFeed(dayOf: DayOf, dated: seq<Row>, legacy: seq<Row>): seq<Capture> {
    Sort(ByDayThenName(), Captures(dayOf, dated + legacy))
  }

  function ModifiedOn(dayOf: DayOf, day: Option<int>): Row -> bool {
    (r: Row) => dayOf(r.mtime) == day
  }

  /** The legacy rows whose modification day is `day`. */
  function Matching(dayOf: DayOf, legacy: seq<Row>, day: Option<int>): seq<Row> {
    Select(ModifiedOn(dayOf, day), legacy)
  }

  /** Every row the feed of one day shows. */
  function DayFeed(dayOf: DayOf, request: DayRequest, normal: seq<Row>, legacy: seq<Row>): seq<Capture> {
    match request
    case Undated => Sort(ByName(), Captures(dayOf, Matching(dayOf, legacy, None)))
    case Canonical(d) => Sort(ByName(), Captures(dayOf, normal + Matching(dayOf, legacy, Some(d))))
    case Loose(d) => Sort(ByName(), Captures(dayOf, normal))
    case Malformed => []
  }

  // ---- Sequences of captures ----

  lemma {:induction false} CapturesAppend(dayOf: DayOf, s: seq<Row>, t: seq<Row>)
    ensures Captures(dayOf, s + t) == Captures(dayOf, s) + Captures(dayOf, t)
  {
    if s == [] {
      assert s + t == t;
    } else {
      assert (s + t)[1..] == s[1..] + t;
      CapturesAppend(dayOf, s[1..], t);
    }
  }

  lemma {:induction false} CapturesAt(dayOf: DayOf, rows: seq<Row>)
    ensures |Captures(dayOf, rows)| == |rows|
    ensures forall i :: 0 <= i < |rows| ==> Captures(dayOf, rows)[i] == CaptureOf(dayOf, rows[i])
  {
    if rows != [] {
      CapturesAt(dayOf, rows[1..]);
    }
  }

  lemma CapturesTake(dayOf: DayOf, rows: seq<Row>, n: nat)
    ensures Captures(dayOf, Take(rows, n)) == Take(Captures(dayOf, rows), n)
  {
    CapturesAt(dayOf, rows);
    CapturesAt(dayOf, Take(rows, n));
  }

  lemma CapturesSlice(dayOf: DayOf, rows: seq<Row>, offset: nat, limit: nat)
    ensures Captures(dayOf, Slice(rows, offset, limit)) == Slice(Captures(dayOf, rows), offset, limit)
  {
    CapturesAt(dayOf, rows);
    CapturesAt(dayOf, Slice(rows, offset, limit));
  }

  lemma CapturesWithout(dayOf: DayOf, t: seq<Row>, j: nat)
    requires j < |t|
    ensures multiset(Captures(dayOf, t)) == multiset(Captures(dayOf, t[..j] + t[j + 1..])) + multiset{CaptureOf(dayOf, t[j])}
  {
    var before, after := t[..j], t[j + 1..];
    assert t == before + ([t[j]] + after);
    assert ([t[j]] + after)[1..] == after;
    CapturesAppend(dayOf, before, [t[j]] + after);
    CapturesAppend(dayOf, before, after);
  }

  lemma WithoutIsDifference<T>(t: seq<T>, j: nat)
    requires j < |t|
    ensures multiset(t[..j] + t[j + 1..]) == multiset(t) - multiset{t[j]}
  {
    assert t == t[..j] + [t[j]] + t[j + 1..];
  }

  /** Where the first element of `s` is in a permutation of it, and what remains without it. */
  lemma FirstOf<T>(s: seq<T>, t: seq<T>) returns (j: nat)
    requires multiset(s) == multiset(t) && s != []
    ensures j < |t| && t[j] == s[0] && multiset(s[1..]) == multiset(t[..j] + t[j + 1..])
  {
    assert s[0] in multiset(t);
    j :| 0 <= j < |t| && t[j] == s[0];
    WithoutIsDifference(t, j);
    WithoutIsDifference(s, 0);
    assert s[..0] + s[1..] == s[1..];
  }

  lemma {:induction false} CapturesOfPermutation(dayOf: DayOf, s: seq<Row>, t: seq<Row>)
    requires multiset(s) == multiset(t)
    ensures multiset(Captures(dayOf, s)) == multiset(Captures(dayOf, t))
  {
    if s == [] {
      assert |multiset(t)| == 0;
    } else {
      var j := FirstOf(s, t);
      CapturesOfPermutation(dayOf, s[1..], t[..j] + t[j + 1..]);
      CapturesWithout(dayOf, t, j);
      CapturesWithout(dayOf, s, 0);
      assert s[..0] + s[1..] == s[1..];
    }
  }

  // ---- The page refines "sort everything, then slice" ----

  /** One page of the global feed and the number of rows in it. */
  method LoadPhotosPage(dayOf: DayOf, dated: seq<Row>, legacy: seq<Row>, offset: nat, limit: nat)
    returns (page: seq<Capture>, total: nat)
    requires forall r :: r in dated ==> r.captureDay.Some?
    requires forall r :: r in legacy ==> r.captureDay.None?
    requires Sorted(ByDayThenName(), Captures(dayOf, dated))
    ensures page == Slice(GlobalFeed(dayOf, dated, legacy), offset, limit)
    ensures total == |GlobalFeed(dayOf, dated, legacy)|
  {
    OrdersAreTotal();
    var legacyCaptures: seq<Capture> := [];
    for k := 0 to |legacy|
      invariant legacyCaptures == Captures(dayOf, legacy[..k])
    {
      CapturesAppend(dayOf, legacy[..k], [legacy[k]]);
      assert legacy[..k + 1] == legacy[..k] + [legacy[k]];
      legacyCaptures := legacyCaptures + [Capture(legacy[k], FilePath(legacy[k]), dayOf(legacy[k].mtime))];
    }
    assert legacy[..|legacy|] == legacy;
    var rows := if legacyCaptures != [] then Take(dated, offset + limit) else Slice(dated, offset, limit);
    var normalCaptures := Captures(dayOf, rows);
    total := |dated| + |legacyCaptures|;
    CapturesAppend(dayOf, dated, legacy);
    CapturesAt(dayOf, dated);
    SortLength(ByDayThenName(), Captures(dayOf, dated + legacy));
    if legacyCaptures == [] {
      CapturesAt(dayOf, legacy);
      CapturesSlice(dayOf, dated, offset, limit);
      assert dated + legacy == dated;
      SortOfSorted(ByDayThenName(), Captures(dayOf, dated));
      return normalCaptures, total;
    }
    var merged := normalCaptures + legacyCaptures;
    TwoSortsAreLexicographic(ByDay(), ByName(), merged);
    CapturesTake(dayOf, dated, offset + limit);
    PageNeedsOnlyPrefix(ByDayThenName(), Captures(dayOf, dated), legacyCaptures, offset, limit);
    merged := Sort(ByName(), merged);
    merged := Sort(ByDay(), merged);
    page := Slice(merged, offset, limit);
  }

  /** One page of the feed of a day and the number of rows in it. */
  method LoadCapturesForDay(dayOf: DayOf, request: DayRequest, normal: seq<Row>, legacy: seq<Row>, offset: nat, limit: nat)
    returns (page: seq<Capture>, total: nat)
    requires request.Undated? || request.Malformed? ==> normal == []
    requires forall r :: r in legacy ==> r.captureDay.None?
    requires Sorted(ByName(), Captures(dayOf, normal))
    ensures page == Slice(DayFeed(dayOf, request, normal, legacy), offset, limit)
    ensures total == |DayFeed(dayOf, request, normal, legacy)|
  {
    OrdersAreTotal();
    if request.Malformed? {
      return [], 0;
    }
    ghost var matched := Matched(dayOf, request, legacy);
    var matching := MatchLegacy(dayOf, request, legacy);
    var rows := if matching != [] then Take(normal, offset + limit) else Slice(normal, offset, limit);
    var normalCaptures := Captures(dayOf, rows);
    total := |normal| + |matching|;
    DayFeedIsSort(dayOf, request, normal, legacy);
    CapturesAt(dayOf, normal);
    CapturesAt(dayOf, matched);
    SortLength(ByName(), Captures(dayOf, normal) + matching);
    if matching == [] {
      CapturesSlice(dayOf, normal, offset, limit);
      assert Captures(dayOf, normal) + matching == Captures(dayOf, normal);
      SortOfSorted(ByName(), Captures(dayOf, normal));
      return normalCaptures, total;
    }
    CapturesTake(dayOf, normal, offset + limit);
    PageNeedsOnlyPrefix(ByName(), Captures(dayOf, normal), matching, offset, limit);
    var merged := Sort(ByName(), normalCaptures + matching);
    page := Slice(merged, offset, limit);
  }

  /** The legacy rows that belong to the requested day; a text that is not the canonical one matches none of them. */
  function Matched(dayOf: DayOf, request: DayRequest, legacy: seq<Row>): seq<Row> {
    match request
    case Undated => Matching(dayOf, legacy, None)
    case Canonical(d) => Matching(dayOf, legacy, Some(d))
    case _ => []
  }

  /** The loop over the legacy rows. */
  method MatchLegacy(dayOf: DayOf, request: DayRequest, legacy: seq<Row>) returns (matching: seq<Capture>)
    requires !request.Malformed?
    ensures matching == Captures(dayOf, Matched(dayOf, request, legacy))
  {
    matching := [];
    for k := 0 to |legacy|
      invariant matching == Captures(dayOf, Matched(dayOf, request, legacy[..k]))
    {
      var row := legacy[k];
      var photoDay := dayOf(row.mtime);
      assert legacy[..k + 1] == legacy[..k] + [row];
      MatchedNext(dayOf, request, legacy[..k], row);
      ghost var before := Matched(dayOf, request, legacy[..k]);
      if (request.Undated? && photoDay == None) || (request.Canonical? && photoDay == Some(request.day)) {
        CapturesAppend(dayOf, before, [row]);
        matching := matching + [CaptureOf(dayOf, row)];
      } else {
        assert before + [] == before;
      }
    }
    assert legacy[..|legacy|] == legacy;
  }

  lemma MatchedNext(dayOf: DayOf, request: DayRequest, legacy: seq<Row>, row: Row)
    ensures Matched(dayOf, request, legacy + [row]) == Matched(dayOf, request, legacy) +
      if (request.Undated? && dayOf(row.mtime) == None) || (request.Canonical? && dayOf(row.mtime) == Some(request.day)) then [row] else []
  {
    if request.Undated? || request.Canonical? {
      SelectAppend(ModifiedOn(dayOf, if request.Canonical? then Some(request.day) else None), legacy, [row]);
      assert [row][1..] == [];
    }
  }

  lemma DayFeedIsSort(dayOf: DayOf, request: DayRequest, normal: seq<Row>, legacy: seq<Row>)
    requires !request.Malformed? && (request.Undated? ==> normal == [])
    ensures DayFeed(dayOf, request, normal, legacy) ==
            Sort(ByName(), Captures(dayOf, normal) + Captures(dayOf, Matched(dayOf, request, legacy)))
  {
    var matched := Matched(dayOf, request, legacy);
    CapturesAppend(dayOf, normal, matched);
    assert [] + matched == matched;
    assert normal + [] == normal;
  }

  lemma Associative<T>(a: seq<T>, b: seq<T>, c: seq<T>)
    ensures (a + b) + c == a + (b + c)
  {
  }

  lemma SelectCons(p: Row -> bool, r: Row, rows: seq<Row>)
    ensures Select(p, [r] + rows) == (if p(r) then [r] else []) + Select(p, rows)
  {
    assert ([r] + rows)[1..] == rows;
  }

  lemma {:induction false} SelectAppend(p: Row -> bool, s: seq<Row>, t: seq<Row>)
    ensures Select(p, s + t) == Select(p, s) + Select(p, t)
  {
    if s == [] {
      assert s + t == t;
    } else {
      SelectAppend(p, s[1..], t);
      SelectCons(p, s[0], s[1..] + t);
      Associative([s[0]], s[1..], t);
      assert s == [s[0]] + s[1..];
      Associative(if p(s[0]) then [s[0]] else [], Select(p, s[1..]), Select(p, t));
    }
  }

  // ---- The global feed is the whole table, sorted ----

  lemma {:induction false} SelectSplits(p: Row -> bool, q: Row -> bool, r: Row -> bool, table: seq<Row>)
    requires forall x :: p(x) == (q(x) || r(x)) && !(q(x) && r(x))
    ensures multiset(Select(p, table)) == multiset(Select(q, table)) + multiset(Select(r, table))
  {
    if table != [] {
      SelectSplits(p, q, r, table[1..]);
    }
  }

  lemma {:induction false} SelectKeepsOnly(p: Row -> bool, table: seq<Row>)
    ensures forall x :: x in Select(p, table) ==> p(x) && x in table
  {
    if table != [] {
      SelectKeepsOnly(p, table[1..]);
    }
  }

  /** The global feed shows every visible row exactly once, ordered by day descending, undated last, then name, then path. */
  lemma GlobalFeedSortsTheTable(dayOf: DayOf, table: seq<Row>, favouriteOnly: bool, dated: seq<Row>, legacy: seq<Row>)
    requires Answers(dayOf, DatedRows(table, favouriteOnly), ByDayThenName(), dated)
    requires Scans(LegacyRows(table, favouriteOnly), legacy)
    ensures Sorted(ByDayThenName(), GlobalFeed(dayOf, dated, legacy))
    ensures multiset(GlobalFeed(dayOf, dated, legacy)) == multiset(Captures(dayOf, VisibleRows(table, favouriteOnly)))
  {
    OrdersAreTotal();
    SortSorts(ByDayThenName(), Captures(dayOf, dated + legacy));
    SelectSplits(r => Visible(r, favouriteOnly),
                 r => Visible(r, favouriteOnly) && r.captureDay.Some?,
                 r => Visible(r, favouriteOnly) && r.captureDay.None?, table);
    assert multiset(dated + legacy) == multiset(VisibleRows(table, favouriteOnly));
    CapturesOfPermutation(dayOf, dated + legacy, VisibleRows(table, favouriteOnly));
  }

  /** No two different visible rows share day, folded name and folded path. */
  ghost predicate NoTies(dayOf: DayOf, table: seq<Row>, favouriteOnly: bool) {
    Tieless(ByDayThenName(), Captures(dayOf, VisibleRows(table, favouriteOnly)))
  }

  /** Without ties the feed does not depend on how the engine ordered its answers. */
  lemma GlobalFeedIsDetermined(dayOf: DayOf, table: seq<Row>, favouriteOnly: bool, dated: seq<Row>, legacy: seq<Row>, feed: seq<Capture>)
    requires Answers(dayOf, DatedRows(table, favouriteOnly), ByDayThenName(), dated)
    requires Scans(LegacyRows(table, favouriteOnly), legacy)
    requires NoTies(dayOf, table, favouriteOnly)
    requires Sorted(ByDayThenName(), feed)
    requires multiset(feed) == multiset(Captures(dayOf, VisibleRows(table, favouriteOnly)))
    ensures GlobalFeed(dayOf, dated, legacy) == feed
  {
    OrdersAreTotal();
    GlobalFeedSortsTheTable(dayOf, table, favouriteOnly, dated, legacy);
    SortedArrangementIsUnique(ByDayThenName(), feed, GlobalFeed(dayOf, dated, legacy));
  }

  // ---- Following next_offset ----

  /** One photo of a response. */
  datatype Photo = Photo(id: string, filename: string, day: Option<int>, favourite: bool, onDisk: bool)

  datatype Response = Response(photos: seq<Photo>, count: nat, hasMore: bool, nextOffset: Option<nat>)

  function PhotoOf(onDisk: set<string>, c: Capture): Photo {
    var filename := if c.row.filename != "" then c.row.filename else Paths.Name(c.filePath);
    Photo(c.filePath, filename, c.day, c.row.favourite, c.filePath in onDisk)
  }

  function Photos(onDisk: set<string>, captures: seq<Capture>): seq<Photo> {
    seq(|captures|, i requires 0 <= i < |captures| => PhotoOf(onDisk, captures[i]))
  }

  /** The answer to a request for the page at `offset` of a feed. */
  function Respond(onDisk: set<string>, feed: seq<Capture>, offset: nat, limit: nat): Response {
    var page := Slice(feed, offset, limit);
    var next := offset + |page|;
    Response(Photos(onDisk, page), |feed|, next < |feed|, if next < |feed| then Some(next) else None)
  }

  /** `get_photos`; `get_day_photos` differs only in the feed it pages through. */
  method GetPhotos(dayOf: DayOf, onDisk: set<string>, dated: seq<Row>, legacy: seq<Row>, offset: nat, limit: nat)
    returns (response: Response)
    requires forall r :: r in dated ==> r.captureDay.Some?
    requires forall r :: r in legacy ==> r.captureDay.None?
    requires Sorted(ByDayThenName(), Captures(dayOf, dated))
    ensures response == Respond(onDisk, GlobalFeed(dayOf, dated, legacy), offset, limit)
  {
    var selected, total := LoadPhotosPage(dayOf, dated, legacy, offset, limit);
    response := RenderPage(onDisk, selected, total, offset);
  }

  method GetDayPhotos(dayOf: DayOf, onDisk: set<string>, request: DayRequest, normal: seq<Row>, legacy: seq<Row>, offset: nat, limit: nat)
    returns (response: Response)
    requires request.Undated? || request.Malformed? ==> normal == []
    requires forall r :: r in legacy ==> r.captureDay.None?
    requires Sorted(ByName(), Captures(dayOf, normal))
    ensures response == Respond(onDisk, DayFeed(dayOf, request, normal, legacy), offset, limit)
  {
    var selected, total := LoadCapturesForDay(dayOf, request, normal, legacy, offset, limit);
    response := RenderPage(onDisk, selected, total, offset);
  }

  /** The loop both endpoints share. */
  method RenderPage(onDisk: set<string>, selected: seq<Capture>, total: nat, offset: nat) returns (response: Response)
    ensures response.photos == Photos(onDisk, selected) && response.count == total
    ensures response.hasMore <==> offset + |selected| < total
    ensures response.nextOffset == if response.hasMore then Some(offset + |selected|) else None
  {
    var photos: seq<Photo> := [];
    for k := 0 to |selected|
      invariant photos == Photos(onDisk, selected[..k])
    {
      photos := photos + [PhotoOf(onDisk, selected[k])];
    }
    var next := offset + |photos|;
    var hasMore := next < total;
    response := Response(photos, total, hasMore, if hasMore then Some(next) else None);
  }
}
