/** The `captures` table and `upsert_captures`, with `fix_capture_dates` on top of it. */
module Captures {
  import opened Text
  import opened Dates
  import opened Dictionaries

  /** The columns that an upsert copies without looking at them. */
  datatype Details = Details(
    extension: string,
    sizeMb: int,
    zipPath: Option<string>,
    sshAlias: Option<string>,
    sshRemotePath: Option<string>,
    gpsLat: Option<int>,
    gpsLon: Option<int>,
    tags: seq<string>)

  datatype Row = Row(
    id: string,
    filename: string,
    mtime: int,
    captureDate: Option<Timestamp>,
    captureDay: Option<Day>,
    sourcePath: string,
    destPath: string,
    details: Details,
    favourite: bool)

  /** A record of a batch, with the identifier that `uuid4` yields if a new one is needed for it. */
  datatype Incoming = Incoming(
    id: string,
    filename: string,
    mtime: int,
    dateText: string,
    sourcePath: string,
    destPath: string,
    details: Details,
    uuid: string)

  type Table = map<string, Row>

  /**
   What the table code takes from elsewhere: the local day of a positive mtime, `fromisoformat` on unusual forms, and
   the date in a file name. The results about the table hold whichever functions these are.
   */
  datatype Env = Env(
    dayOf: int -> Option<Day>,
    parse: string -> Option<Timestamp>,
    filenameDate: string -> Option<Timestamp>)

  /** The environment the application runs in: dates come from `extract_date_from_filename`. */
  function Host(dayOf: int -> Option<Day>, parse: string -> Option<Timestamp>): Env {
    Env(dayOf, parse, (name: string) => FilenameDate(name))
  }

  // ---- One record ----

  predicate PathLike(id: string) {
    "/" <= id || "C:" <= id || "\\" <= id
  }

  predicate NeedsNewId(id: string) {
    PathLike(id) || id == ""
  }

  /** The id a record is stored under, given the ids of the destinations already in the table. */
  function ResolvedId(known: map<string, string>, c: Incoming): string {
    if c.destPath in known then known[c.destPath]
    else if NeedsNewId(c.id) then c.uuid
    else c.id
  }

  function CaptureDate(env: Env, filename: string, dateText: string): Option<Timestamp> {
    var fromName := DateTimeText(env.filenameDate(filename));
    ParseDateTime(if fromName != "" then fromName else dateText, env.parse)
  }

  function FallbackDay(env: Env, mtime: int): Option<Day> {
    if mtime > 0 then env.dayOf(mtime) else None
  }

  function CaptureDay(env: Env, date: Option<Timestamp>, mtime: int): Option<Day> {
    if date.Some? then Some(DayOfDateTime(date.value)) else FallbackDay(env, mtime)
  }

  function RecordWith(env: Env, id: string, c: Incoming): Row {
    var date := CaptureDate(env, c.filename, c.dateText);
    Row(id, c.filename, c.mtime, date, CaptureDay(env, date, c.mtime), c.sourcePath, c.destPath, c.details, false)
  }

  function RecordOf(env: Env, known: map<string, string>, c: Incoming): Row {
    RecordWith(env, ResolvedId(known, c), c)
  }

  /** The key under which `records_by_key` keeps a record. */
  function KeyOf(r: Row): string {
    if r.destPath != "" then r.destPath else r.id
  }

  // ---- A batch ----

  function Wanted(batch: seq<Incoming>): set<string> {
    set c | c in batch && c.destPath != "" :: c.destPath
  }

  /** What the lookup of known destinations may return: an id of a row for each destination that has one. */
  ghost predicate KnownFor(table: Table, known: map<string, string>, wanted: set<string>) {
    && (forall d :: d in known ==> d in wanted && known[d] in table && table[known[d]].destPath == d)
    && (forall id :: id in table && table[id].destPath in wanted ==> table[id].destPath in known)
  }

  /** The normalized records, one for each element of the batch. */
  function Normalized(env: Env, known: map<string, string>, batch: seq<Incoming>): seq<Row> {
    seq(|batch|, i requires 0 <= i < |batch| => RecordOf(env, known, batch[i]))
  }

  function ByKey(rows: seq<Row>): Dict<Row> {
    if rows == [] then []
    else
      var r := rows[|rows| - 1];
      Put(ByKey(rows[..|rows| - 1]), KeyOf(r), r)
  }

  function ById(rows: seq<Row>): Dict<Row> {
    if rows == [] then []
    else
      var r := rows[|rows| - 1];
      Put(ById(rows[..|rows| - 1]), r.id, r)
  }

  /** The records that remain after both deduplications. */
  function Records(env: Env, known: map<string, string>, batch: seq<Incoming>): seq<Row> {
    Values(ById(Values(ByKey(Normalized(env, known, batch)))))
  }

  // ---- INSERT ... ON CONFLICT (id) DO UPDATE ----

  function Merged(table: Table, r: Row): Row {
    if r.id in table then r.(favourite := table[r.id].favourite) else r
  }

  function ApplyRow(table: Table, r: Row): Table {
    table[r.id := Merged(table, r)]
  }

  function ApplyAll(table: Table, rows: seq<Row>): Table
    decreases rows
  {
    if rows == [] then table else ApplyAll(ApplyRow(table, rows[0]), rows[1..])
  }

  function Upsert(env: Env, known: map<string, string>, table: Table, batch: seq<Incoming>): Table {
    ApplyAll(table, Records(env, known, batch))
  }

  predicate DistinctIds(rows: seq<Row>) {
    forall i, j :: 0 <= i < j < |rows| ==> rows[i].id != rows[j].id
  }

  // ---- Invariants of the table ----

  ghost predicate WellKeyed(table: Table) {
    forall id :: id in table ==> table[id].id == id
  }

  ghost predicate UniqueDestinations(table: Table) {
    forall i, j :: i in table && j in table && table[i].destPath == table[j].destPath != "" ==> i == j
  }

  function Destinations(table: Table): set<string> {
    set id | id in table && table[id].destPath != "" :: table[id].destPath
  }

  // ---- Applying records ----

  lemma {:induction false} ApplyAllAppend(table: Table, s: seq<Row>, t: seq<Row>)
    ensures ApplyAll(table, s + t) == ApplyAll(ApplyAll(table, s), t)
    decreases s
  {
    if s == [] {
      assert s + t == t;
    } else {
      assert (s + t)[1..] == s[1..] + t;
      ApplyAllAppend(ApplyRow(table, s[0]), s[1..], t);
    }
  }

  lemma HeadIsApart(rows: seq<Row>)
    requires DistinctIds(rows) && rows != []
    ensures DistinctIds(rows[1..])
    ensures forall r :: r in rows[1..] ==> r.id != rows[0].id
  {
    var rest := rows[1..];
    forall i, j | 0 <= i < j < |rest| ensures rest[i].id != rest[j].id {
      assert rows[i + 1].id != rows[j + 1].id;
    }
    forall r | r in rest ensures r.id != rows[0].id {
      var i :| 0 <= i < |rest| && rest[i] == r;
      assert rows[0].id != rows[i + 1].id;
    }
  }

  /** Records with distinct ids are written independently of each other. */
  lemma {:induction false} ApplyAllWrites(table: Table, rows: seq<Row>)
    requires DistinctIds(rows)
    ensures forall id :: id in ApplyAll(table, rows) <==> id in table || exists r :: r in rows && r.id == id
    ensures forall r :: r in rows ==> r.id in ApplyAll(table, rows) && ApplyAll(table, rows)[r.id] == Merged(table, r)
    ensures forall id :: id in table && (forall r :: r in rows ==> r.id != id) ==> ApplyAll(table, rows)[id] == table[id]
    decreases rows
  {
    if rows != [] {
      var head, rest := rows[0], rows[1..];
      var next := ApplyRow(table, head);
      HeadIsApart(rows);
      ApplyAllWrites(next, rest);
      var result := ApplyAll(next, rest);
      assert rows == [head] + rest;
      assert head.id in next && result[head.id] == next[head.id];
      forall r | r in rows ensures r.id in result && result[r.id] == Merged(table, r) {
        if r != head {
          assert r in rest;
        }
      }
      forall id ensures id in result <==> id in table || exists r :: r in rows && r.id == id {
        if id in result && id !in table && id != head.id {
          var r :| r in rest && r.id == id;
          assert r in rows;
        }
      }
    }
  }

  // ---- The two deduplications ----

  lemma {:induction false} ByKeyKeeps(rows: seq<Row>)
    ensures DistinctKeys(ByKey(rows))
    ensures forall p :: p in ByKey(rows) ==> p.0 == KeyOf(p.1) && p.1 in rows
    ensures forall r :: r in rows ==> HasKey(ByKey(rows), KeyOf(r))
  {
    if rows != [] {
      var init, last := rows[..|rows| - 1], rows[|rows| - 1];
      ByKeyKeeps(init);
      var d := ByKey(init);
      var all := Put(d, KeyOf(last), last);
      PutAddsOrReplaces(d, KeyOf(last), last);
      assert rows == init + [last];
      forall r | r in rows ensures HasKey(all, KeyOf(r)) {
        if KeyOf(r) == KeyOf(last) {
          MemberHasKey(all, (KeyOf(last), last));
        } else {
          var i :| 0 <= i < |d| && d[i].0 == KeyOf(r);
          assert d[i] in d;
          MemberHasKey(all, d[i]);
        }
      }
    }
  }

  lemma MemberHasKey<V>(d: Dict<V>, p: (string, V))
    requires p in d
    ensures HasKey(d, p.0)
  {
    var i :| 0 <= i < |d| && d[i] == p;
  }

  lemma {:induction false} ByIdKeeps(rows: seq<Row>)
    ensures DistinctKeys(ById(rows))
    ensures forall p :: p in ById(rows) ==> p.0 == p.1.id && p.1 in rows
    ensures forall r :: r in rows ==> HasKey(ById(rows), r.id)
  {
    if rows != [] {
      var init, last := rows[..|rows| - 1], rows[|rows| - 1];
      ByIdKeeps(init);
      var d := ById(init);
      var all := Put(d, last.id, last);
      PutAddsOrReplaces(d, last.id, last);
      assert rows == init + [last];
      forall r | r in rows ensures HasKey(all, r.id) {
        if r.id == last.id {
          MemberHasKey(all, (last.id, last));
        } else {
          var i :| 0 <= i < |d| && d[i].0 == r.id;
          assert d[i] in d;
          MemberHasKey(all, d[i]);
        }
      }
    }
  }

  lemma ValueFrom<V>(d: Dict<V>, v: V) returns (i: nat)
    requires v in Values(d)
    ensures i < |d| && d[i].1 == v && d[i] in d
  {
    i :| 0 <= i < |Values(d)| && Values(d)[i] == v;
  }

  lemma EntryHasValue<V>(d: Dict<V>, p: (string, V))
    requires p in d
    ensures p.1 in Values(d)
  {
    var i :| 0 <= i < |d| && d[i] == p;
    assert Values(d)[i] == p.1;
  }

  /** What `records` holds: every id once, every destination once, and only records of the batch. */
  lemma RecordsAreDeduplicated(env: Env, known: map<string, string>, batch: seq<Incoming>)
    ensures DistinctIds(Records(env, known, batch))
    ensures forall r, s :: r in Records(env, known, batch) && s in Records(env, known, batch) && r.destPath == s.destPath != "" ==> r == s
    ensures forall r :: r in Records(env, known, batch) ==> exists c :: c in batch && r == RecordOf(env, known, c)
  {
    var normalized := Normalized(env, known, batch);
    ByKeyKeeps(normalized);
    var byKey := ByKey(normalized);
    ByIdKeeps(Values(byKey));
    var byId := ById(Values(byKey));
    var records := Values(byId);
    forall i, j | 0 <= i < j < |records| ensures records[i].id != records[j].id {
      assert byId[i] in byId && byId[j] in byId;
    }
    forall r | r in records ensures r in Values(byKey) && r in normalized {
      var i := ValueFrom(byId, r);
      var j := ValueFrom(byKey, r);
    }
    forall r | r in records ensures exists c :: c in batch && r == RecordOf(env, known, c) {
      var i :| 0 <= i < |normalized| && normalized[i] == r;
      assert batch[i] in batch;
    }
    forall r, s | r in records && s in records && r.destPath == s.destPath != "" ensures r == s {
      var i := ValueFrom(byKey, r);
      var j := ValueFrom(byKey, s);
    }
  }

  // ---- What every upsert keeps ----

  /** Ids stay unique, non-empty destinations stay unique. */
  lemma UpsertKeepsInvariants(env: Env, known: map<string, string>, table: Table, batch: seq<Incoming>)
    requires WellKeyed(table) && UniqueDestinations(table) && KnownFor(table, known, Wanted(batch))
    ensures WellKeyed(Upsert(env, known, table, batch))
    ensures UniqueDestinations(Upsert(env, known, table, batch))
  {
    var rows := Records(env, known, batch);
    var result := Upsert(env, known, table, batch);
    RecordsAreDeduplicated(env, known, batch);
    ApplyAllWrites(table, rows);
    forall i, j | i in result && j in result && result[i].destPath == result[j].destPath != "" ensures i == j {
      if r :| r in rows && r.id == i {
        if s :| s in rows && s.id == j {
          assert r == s;
        } else {
          NotOverlooked(env, known, table, batch, r, j);
        }
      } else if s :| s in rows && s.id == j {
        NotOverlooked(env, known, table, batch, s, i);
      }
    }
  }

  /** A row that already has the destination of a record is the row that the record updates. */
  lemma NotOverlooked(env: Env, known: map<string, string>, table: Table, batch: seq<Incoming>, r: Row, id: string)
    requires UniqueDestinations(table) && KnownFor(table, known, Wanted(batch))
    requires exists c :: c in batch && r == RecordOf(env, known, c)
    requires id in table && table[id].destPath == r.destPath != ""
    ensures r.id == id
  {
    var c :| c in batch && r == RecordOf(env, known, c);
    assert c.destPath in Wanted(batch);
  }

  /**
   A known destination keeps its id; every stored row keeps its favourite flag; new rows are not favourites; rows
   that no record of the batch resolves to stay as they are; no row disappears.
   */
  lemma UpsertPreserves(env: Env, known: map<string, string>, table: Table, batch: seq<Incoming>)
    requires WellKeyed(table) && UniqueDestinations(table) && KnownFor(table, known, Wanted(batch))
    ensures var result := Upsert(env, known, table, batch);
            && (forall id :: id in table ==> id in result && result[id].favourite == table[id].favourite)
            && (forall id :: id in result && id !in table ==> !result[id].favourite)
            && (forall id :: id in table && (forall c :: c in batch ==> ResolvedId(known, c) != id) ==> result[id] == table[id])
            && (forall id :: id in result && result[id].destPath in known ==> id == known[result[id].destPath])
  {
    var rows := Records(env, known, batch);
    var result := Upsert(env, known, table, batch);
    RecordsAreDeduplicated(env, known, batch);
    ApplyAllWrites(table, rows);
    forall id | id in table ensures id in result && result[id].favourite == table[id].favourite {
      if r :| r in rows && r.id == id {
        assert result[r.id] == Merged(table, r);
      }
    }
    forall id | id in result && id !in table ensures !result[id].favourite {
      var r :| r in rows && r.id == id;
      assert result[r.id] == Merged(table, r);
    }
    forall id | id in result && result[id].destPath in known ensures id == known[result[id].destPath] {
      if r :| r in rows && r.id == id {
        assert result[r.id] == Merged(table, r);
      } else {
        assert result[id] == table[id];
      }
    }
  }

  // ---- Batches whose records do not meet each other ----

  /** All destinations (or ids, where there is no destination) differ, and so do the ids the records resolve to. */
  ghost predicate Apart(known: map<string, string>, batch: seq<Incoming>) {
    forall i, j :: 0 <= i < j < |batch| ==>
      && KeyIn(known, batch[i]) != KeyIn(known, batch[j])
      && ResolvedId(known, batch[i]) != ResolvedId(known, batch[j])
  }

  function KeyIn(known: map<string, string>, c: Incoming): string {
    if c.destPath != "" then c.destPath else ResolvedId(known, c)
  }

  lemma ValuesAppend<V>(d: Dict<V>, key: string, value: V)
    ensures Values(d + [(key, value)]) == Values(d) + [value]
  {
  }

  lemma {:induction false} ByKeyOfDistinct(rows: seq<Row>)
    requires forall i, j :: 0 <= i < j < |rows| ==> KeyOf(rows[i]) != KeyOf(rows[j])
    ensures Values(ByKey(rows)) == rows
    ensures |ByKey(rows)| == |rows| && forall i :: 0 <= i < |rows| ==> ByKey(rows)[i].0 == KeyOf(rows[i])
  {
    if rows != [] {
      var init, last := rows[..|rows| - 1], rows[|rows| - 1];
      ByKeyOfDistinct(init);
      var before := ByKey(init);
      forall i | 0 <= i < |before| ensures before[i].0 == KeyOf(rows[i]) != KeyOf(last) {
        assert init[i] == rows[i];
      }
      PutNewKeyAppends(before, KeyOf(last), last);
      ValuesAppend(before, KeyOf(last), last);
      assert rows == init + [last];
    }
  }

  lemma {:induction false} ByIdOfDistinct(rows: seq<Row>)
    requires DistinctIds(rows)
    ensures Values(ById(rows)) == rows
    ensures |ById(rows)| == |rows| && forall i :: 0 <= i < |rows| ==> ById(rows)[i].0 == rows[i].id
  {
    if rows != [] {
      var init, last := rows[..|rows| - 1], rows[|rows| - 1];
      ByIdOfDistinct(init);
      PutNewKeyAppends(ById(init), last.id, last);
      ValuesAppend(ById(init), last.id, last);
      assert rows == init + [last];
    }
  }

  lemma RecordsOfApart(env: Env, known: map<string, string>, batch: seq<Incoming>)
    requires Apart(known, batch)
    ensures Records(env, known, batch) == Normalized(env, known, batch)
    ensures DistinctIds(Normalized(env, known, batch))
  {
    var rows := Normalized(env, known, batch);
    forall i, j | 0 <= i < j < |rows| ensures KeyOf(rows[i]) != KeyOf(rows[j]) && rows[i].id != rows[j].id {
      assert KeyIn(known, batch[i]) != KeyIn(known, batch[j]);
    }
    ByKeyOfDistinct(rows);
    ByIdOfDistinct(rows);
  }

  /** The table after an upsert of a batch of this kind, record by record. */
  lemma UpsertOfApart(env: Env, known: map<string, string>, table: Table, batch: seq<Incoming>)
    requires Apart(known, batch)
    ensures var result := Upsert(env, known, table, batch);
            && (forall id :: id in result <==> id in table || exists c :: c in batch && ResolvedId(known, c) == id)
            && (forall c :: c in batch ==>
                  ResolvedId(known, c) in result && result[ResolvedId(known, c)] == Merged(table, RecordOf(env, known, c)))
            && (forall id :: id in table && (forall c :: c in batch ==> ResolvedId(known, c) != id) ==> result[id] == table[id])
  {
    var rows := Normalized(env, known, batch);
    RecordsOfApart(env, known, batch);
    ApplyAllWrites(table, rows);
    NormalizedAre(env, known, batch);
    var result := Upsert(env, known, table, batch);
    forall id ensures id in result <==> id in table || exists c :: c in batch && ResolvedId(known, c) == id {
      IdIsResolved(env, known, batch, id);
    }
    forall id | id in table && (forall c :: c in batch ==> ResolvedId(known, c) != id) ensures result[id] == table[id] {
      IdIsResolved(env, known, batch, id);
    }
  }

  lemma NormalizedAre(env: Env, known: map<string, string>, batch: seq<Incoming>)
    ensures forall c :: c in batch ==> RecordOf(env, known, c) in Normalized(env, known, batch)
    ensures forall r :: r in Normalized(env, known, batch) ==> exists c :: c in batch && r == RecordOf(env, known, c)
  {
    var rows := Normalized(env, known, batch);
    forall c | c in batch ensures RecordOf(env, known, c) in rows {
      var i :| 0 <= i < |batch| && batch[i] == c;
      assert rows[i] == RecordOf(env, known, c);
    }
    forall r | r in rows ensures exists c :: c in batch && r == RecordOf(env, known, c) {
      var i :| 0 <= i < |rows| && rows[i] == r;
      assert batch[i] in batch;
    }
  }

  /** A record is stored under an id exactly when a record of the batch resolves to it. */
  lemma IdIsResolved(env: Env, known: map<string, string>, batch: seq<Incoming>, id: string)
    ensures (exists r :: r in Normalized(env, known, batch) && r.id == id) <==> exists c :: c in batch && ResolvedId(known, c) == id
  {
    var rows := Normalized(env, known, batch);
    NormalizedAre(env, known, batch);
    if r :| r in rows && r.id == id {
      var c :| c in batch && r == RecordOf(env, known, c);
      assert ResolvedId(known, c) == id;
    }
    if c :| c in batch && ResolvedId(known, c) == id {
      assert RecordOf(env, known, c).id == id;
    }
  }

  // ---- One batch, or its records one at a time ----

  /** The lookup of one destination, for tables with unique destinations. */
  ghost function Known(table: Table, wanted: set<string>): map<string, string> {
    map d | d in wanted && d in Destinations(table) :: IdWith(table, d)
  }

  ghost function IdWith(table: Table, d: string): (id: string)
    requires d in Destinations(table)
    ensures id in table && table[id].destPath == d
  {
    var id :| id in table && table[id].destPath == d;
    id
  }

  lemma KnownIsTheLookup(table: Table, wanted: set<string>, known: map<string, string>)
    requires UniqueDestinations(table) && "" !in wanted
    ensures KnownFor(table, Known(table, wanted), wanted)
    ensures KnownFor(table, known, wanted) ==> known == Known(table, wanted)
  {
  }

  /** Upserting the records of a batch one call at a time. */
  ghost function UpsertEach(env: Env, table: Table, batch: seq<Incoming>): Table
    decreases batch
  {
    if batch == [] then table
    else
      var one := [batch[0]];
      UpsertEach(env, Upsert(env, Known(table, Wanted(one)), table, one), batch[1..])
  }

  /** A later record resolves the same way before and after an earlier one is written. */
  lemma ResolvesTheSame(env: Env, table: Table, known: map<string, string>, first: Incoming, wanted: set<string>, c: Incoming)
    requires WellKeyed(table) && UniqueDestinations(table)
    requires "" !in wanted && (c.destPath != "" ==> c.destPath in wanted)
    requires known == Known(table, wanted + (if first.destPath != "" then {first.destPath} else {}))
    requires KeyIn(known, first) != KeyIn(known, c) && ResolvedId(known, first) != ResolvedId(known, c)
    ensures var next := ApplyRow(table, RecordOf(env, known, first));
            ResolvedId(Known(next, wanted), c) == ResolvedId(known, c)
  {
    var next := ApplyRow(table, RecordOf(env, known, first));
    var after := Known(next, wanted);
    if c.destPath in known {
      assert next[known[c.destPath]] == table[known[c.destPath]];
      assert c.destPath in after;
    } else if c.destPath in after {
      assert false;
    }
  }

  lemma OneRecord(env: Env, table: Table, known: map<string, string>, first: Incoming, wanted: set<string>)
    requires WellKeyed(table) && UniqueDestinations(table)
    requires "" !in wanted && (first.destPath != "" ==> first.destPath in wanted) && known == Known(table, wanted)
    ensures var next := ApplyRow(table, RecordOf(env, known, first));
            && Upsert(env, Known(table, Wanted([first])), table, [first]) == next
            && WellKeyed(next) && UniqueDestinations(next)
  {
    var one := [first];
    var knownOne := Known(table, Wanted(one));
    KnownIsTheLookup(table, Wanted(one), knownOne);
    assert first in one;
    assert first.destPath in knownOne <==> first.destPath in known;
    assert ResolvedId(knownOne, first) == ResolvedId(known, first);
    RecordsOfApart(env, knownOne, one);
    var rows := [RecordOf(env, known, first)];
    assert Normalized(env, knownOne, one) == rows;
    assert rows[1..] == [] && ApplyAll(table, rows) == ApplyRow(table, rows[0]);
    UpsertKeepsInvariants(env, knownOne, table, one);
  }

  lemma RestResolvesTheSame(env: Env, table: Table, batch: seq<Incoming>, i: nat)
    requires WellKeyed(table) && UniqueDestinations(table) && 0 < i < |batch|
    requires Apart(Known(table, Wanted(batch)), batch)
    ensures var known := Known(table, Wanted(batch));
            ResolvedId(Known(ApplyRow(table, RecordOf(env, known, batch[0])), Wanted(batch[1..])), batch[i]) == ResolvedId(known, batch[i])
  {
    var first, rest := batch[0], batch[1..];
    assert batch == [first] + rest;
    assert Wanted(batch) == Wanted(rest) + (if first.destPath != "" then {first.destPath} else {});
    assert rest[i - 1] == batch[i] && batch[i] in rest;
    ResolvesTheSame(env, table, Known(table, Wanted(batch)), first, Wanted(rest), batch[i]);
  }

  lemma RestStaysApart(known: map<string, string>, after: map<string, string>, batch: seq<Incoming>)
    requires batch != [] && Apart(known, batch)
    requires forall i :: 0 < i < |batch| ==> ResolvedId(after, batch[i]) == ResolvedId(known, batch[i])
    ensures Apart(after, batch[1..])
  {
    var rest := batch[1..];
    forall i, j | 0 <= i < j < |rest|
      ensures KeyIn(after, rest[i]) != KeyIn(after, rest[j])
      ensures ResolvedId(after, rest[i]) != ResolvedId(after, rest[j])
    {
      assert KeyIn(known, batch[i + 1]) != KeyIn(known, batch[j + 1]);
    }
  }

  lemma FirstThenRest(env: Env, known: map<string, string>, after: map<string, string>, table: Table, batch: seq<Incoming>)
    requires batch != [] && Apart(known, batch) && Apart(after, batch[1..])
    requires forall i :: 0 < i < |batch| ==> ResolvedId(after, batch[i]) == ResolvedId(known, batch[i])
    ensures Upsert(env, after, ApplyRow(table, RecordOf(env, known, batch[0])), batch[1..]) == Upsert(env, known, table, batch)
  {
    RecordsOfApart(env, known, batch);
    RecordsOfApart(env, after, batch[1..]);
    RestIsNormalizedTheSame(env, known, after, batch);
  }

  lemma RestIsNormalizedTheSame(env: Env, known: map<string, string>, after: map<string, string>, batch: seq<Incoming>)
    requires batch != []
    requires forall i :: 0 < i < |batch| ==> ResolvedId(after, batch[i]) == ResolvedId(known, batch[i])
    ensures Normalized(env, known, batch) == [RecordOf(env, known, batch[0])] + Normalized(env, after, batch[1..])
    ensures Normalized(env, known, batch)[1..] == Normalized(env, after, batch[1..])
  {
    var all, rest := Normalized(env, known, batch), Normalized(env, after, batch[1..]);
    forall i | 0 <= i < |rest| ensures all[i + 1] == rest[i] {
      SameRecord(env, known, after, batch[i + 1]);
    }
    HeadAndTail(all, rest);
  }

  lemma SameRecord(env: Env, known: map<string, string>, after: map<string, string>, c: Incoming)
    requires ResolvedId(after, c) == ResolvedId(known, c)
    ensures RecordOf(env, known, c) == RecordOf(env, after, c)
  {
  }

  lemma HeadAndTail<T>(all: seq<T>, rest: seq<T>)
    requires |all| == |rest| + 1 && forall i :: 0 <= i < |rest| ==> all[i + 1] == rest[i]
    ensures all[1..] == rest && all == [all[0]] + rest
  {
  }

  /** Upserting the records one call at a time gives the table that one call for the whole batch gives. */
  lemma {:induction false} EachEqualsBatch(env: Env, table: Table, batch: seq<Incoming>)
    requires WellKeyed(table) && UniqueDestinations(table)
    requires Apart(Known(table, Wanted(batch)), batch)
    ensures UpsertEach(env, table, batch) == Upsert(env, Known(table, Wanted(batch)), table, batch)
    decreases batch
  {
    var known := Known(table, Wanted(batch));
    if batch != [] {
      var r := RecordOf(env, known, batch[0]);
      var next := ApplyRow(table, r);
      OneRecord(env, table, known, batch[0], Wanted(batch));
      var after := Known(next, Wanted(batch[1..]));
      forall i | 0 < i < |batch| ensures ResolvedId(after, batch[i]) == ResolvedId(known, batch[i]) {
        RestResolvesTheSame(env, table, batch, i);
      }
      RestStaysApart(known, after, batch);
      EachEqualsBatch(env, next, batch[1..]);
      FirstThenRest(env, known, after, table, batch);
    }
  }

  lemma NoDuplicates<T>(s: seq<T>, t: seq<T>, i: nat, j: nat)
    requires multiset(s) == multiset(t) && i < j < |t| && t[i] == t[j]
    ensures exists k, m :: 0 <= k < m < |s| && s[k] == s[m]
  {
    assert t == t[..i] + [t[i]] + t[i + 1..j] + [t[j]] + t[j + 1..];
    assert multiset(s)[t[i]] >= 2;
    assert t[i] in multiset(s);
    var k :| 0 <= k < |s| && s[k] == t[i];
    assert s == s[..k] + [s[k]] + s[k + 1..];
    assert t[i] in multiset(s[..k]) + multiset(s[k + 1..]);
    if m :| 0 <= m < |s[..k]| && s[..k][m] == t[i] {
      assert s[m] == s[k];
    } else {
      assert t[i] in s[k + 1..];
      var m :| 0 <= m < |s[k + 1..]| && s[k + 1..][m] == t[i];
      assert s[k] == s[k + 1 + m];
    }
  }

  lemma ApartOfPermutation(known: map<string, string>, batch: seq<Incoming>, permuted: seq<Incoming>)
    requires Apart(known, batch) && multiset(permuted) == multiset(batch)
    ensures Apart(known, permuted)
  {
    forall i, j | 0 <= i < j < |permuted|
      ensures KeyIn(known, permuted[i]) != KeyIn(known, permuted[j])
      ensures ResolvedId(known, permuted[i]) != ResolvedId(known, permuted[j])
    {
      var x, y := permuted[i], permuted[j];
      assert x in multiset(permuted) && y in multiset(permuted);
      var k :| 0 <= k < |batch| && batch[k] == x;
      var m :| 0 <= m < |batch| && batch[m] == y;
      if x == y {
        NoDuplicates(batch, permuted, i, j);
      }
      assert k != m;
    }
  }

  lemma SameMembers(a: seq<Incoming>, b: seq<Incoming>)
    requires multiset(a) == multiset(b)
    ensures forall c :: c in a <==> c in b
    ensures Wanted(a) == Wanted(b)
  {
    forall c ensures c in a <==> c in b {
      assert c in multiset(a) <==> c in multiset(b);
    }
  }

  /** The records may be upserted one call at a time in any order. */
  lemma EachInAnyOrder(env: Env, table: Table, batch: seq<Incoming>, permuted: seq<Incoming>)
    requires WellKeyed(table) && UniqueDestinations(table)
    requires Apart(Known(table, Wanted(batch)), batch) && multiset(permuted) == multiset(batch)
    ensures UpsertEach(env, table, permuted) == Upsert(env, Known(table, Wanted(batch)), table, batch)
  {
    var known := Known(table, Wanted(batch));
    ApartOfPermutation(known, batch, permuted);
    SameMembers(batch, permuted);
    EachEqualsBatch(env, table, permuted);
    OrderOfBatch(env, known, table, batch, permuted);
  }

  lemma OrderOfBatch(env: Env, known: map<string, string>, table: Table, batch: seq<Incoming>, permuted: seq<Incoming>)
    requires Apart(known, batch) && Apart(known, permuted)
    requires forall c :: c in batch <==> c in permuted
    ensures Upsert(env, known, table, permuted) == Upsert(env, known, table, batch)
  {
    var a, b := Upsert(env, known, table, permuted), Upsert(env, known, table, batch);
    forall id ensures (id in a <==> id in b) && (id in a ==> a[id] == b[id]) {
      RowOfBatch(env, known, table, batch, id);
      RowOfBatch(env, known, table, permuted, id);
      if c :| c in batch && ResolvedId(known, c) == id {
        assert c in permuted;
        RowOfRecord(env, known, table, batch, c);
        RowOfRecord(env, known, table, permuted, c);
      }
    }
  }

  lemma RowOfRecord(env: Env, known: map<string, string>, table: Table, batch: seq<Incoming>, c: Incoming)
    requires Apart(known, batch) && c in batch
    ensures var result := Upsert(env, known, table, batch);
            ResolvedId(known, c) in result && result[ResolvedId(known, c)] == Merged(table, RecordOf(env, known, c))
  {
    UpsertOfApart(env, known, table, batch);
  }

  lemma RowOfBatch(env: Env, known: map<string, string>, table: Table, batch: seq<Incoming>, id: string)
    requires Apart(known, batch)
    ensures var result := Upsert(env, known, table, batch);
            && (id in result <==> id in table || exists c :: c in batch && ResolvedId(known, c) == id)
            && (id in table && (forall c :: c in batch ==> ResolvedId(known, c) != id) ==> result[id] == table[id])
  {
    UpsertOfApart(env, known, table, batch);
  }

  // ---- Repeating a batch ----

  predicate SameExceptUuid(a: seq<Incoming>, b: seq<Incoming>) {
    |a| == |b| && forall i :: 0 <= i < |a| ==> b[i] == a[i].(uuid := b[i].uuid)
  }

  /** The record has no destination to be recognised by, and no id of its own to keep. */
  predicate Anonymous(c: Incoming) {
    c.destPath == "" && NeedsNewId(c.id)
  }

  /** The identifiers drawn for a batch are new: in no row, and nowhere else in the batch. */
  ghost predicate FreshUuids(table: Table, batch: seq<Incoming>) {
    forall i, j :: 0 <= i < |batch| && 0 <= j < |batch| ==>
      && batch[i].uuid !in table
      && batch[i].uuid != batch[j].destPath && batch[i].uuid != batch[j].id
      && (i != j ==> batch[i].uuid != batch[j].uuid)
  }

  lemma AgainResolves(env: Env, table: Table, batch: seq<Incoming>, again: seq<Incoming>, i: nat)
    requires WellKeyed(table) && UniqueDestinations(table)
    requires Apart(Known(table, Wanted(batch)), batch) && SameExceptUuid(batch, again) && i < |batch|
    ensures var known := Known(table, Wanted(batch));
            var result := Upsert(env, known, table, batch);
            ResolvedId(Known(result, Wanted(again)), again[i]) ==
            if Anonymous(batch[i]) then again[i].uuid else ResolvedId(known, batch[i])
  {
    var known := Known(table, Wanted(batch));
    var result := Upsert(env, known, table, batch);
    var c := batch[i];
    KnownIsTheLookup(table, Wanted(batch), known);
    UpsertOfApart(env, known, table, batch);
    UpsertKeepsInvariants(env, known, table, batch);
    if c.destPath != "" {
      assert c in batch && again[i] in again;
      assert result[ResolvedId(known, c)].destPath == c.destPath;
      assert c.destPath in Destinations(result) && c.destPath in Wanted(again);
    }
  }

  /**
   Repeating a batch changes nothing if and only if every record of it has a destination or an id of its own.
   */
  lemma RepeatingIsIdempotent(env: Env, table: Table, batch: seq<Incoming>, again: seq<Incoming>)
    requires WellKeyed(table) && UniqueDestinations(table)
    requires Apart(Known(table, Wanted(batch)), batch) && SameExceptUuid(batch, again)
    requires FreshUuids(Upsert(env, Known(table, Wanted(batch)), table, batch), again)
    ensures var result := Upsert(env, Known(table, Wanted(batch)), table, batch);
            Upsert(env, Known(result, Wanted(again)), result, again) == result
            <==> forall c :: c in batch ==> !Anonymous(c)
  {
    var known := Known(table, Wanted(batch));
    var result := Upsert(env, known, table, batch);
    var later := Known(result, Wanted(again));
    StaysApart(env, table, batch, again);
    if i :| 0 <= i < |batch| && Anonymous(batch[i]) {
      AgainResolves(env, table, batch, again, i);
      UpsertOfApart(env, later, result, again);
      assert batch[i] in batch && again[i] in again;
      assert again[i].uuid !in result;
    } else {
      forall i | 0 <= i < |batch| ensures ResolvedId(later, again[i]) == ResolvedId(known, batch[i]) {
        AgainResolves(env, table, batch, again, i);
      }
      RewritesTheSame(env, known, later, table, batch, again);
    }
  }

  /** Records that resolve as before write what is already there. */
  lemma RewritesTheSame(env: Env, known: map<string, string>, later: map<string, string>, table: Table, batch: seq<Incoming>, again: seq<Incoming>)
    requires Apart(known, batch) && Apart(later, again) && SameExceptUuid(batch, again)
    requires forall i :: 0 <= i < |batch| ==> ResolvedId(later, again[i]) == ResolvedId(known, batch[i])
    ensures var result := Upsert(env, known, table, batch);
            Upsert(env, later, result, again) == result
  {
    var result := Upsert(env, known, table, batch);
    var twice := Upsert(env, later, result, again);
    UpsertOfApart(env, later, result, again);
    forall c | c in again ensures ResolvedId(later, c) in result && Merged(result, RecordOf(env, later, c)) == result[ResolvedId(later, c)] {
      var i :| 0 <= i < |again| && again[i] == c;
      RewritesRecord(env, known, later, table, batch, again, i);
    }
    assert twice.Keys == result.Keys;
  }

  lemma RewritesRecord(
    env: Env, known: map<string, string>, later: map<string, string>, table: Table, batch: seq<Incoming>, again: seq<Incoming>, i: nat)
    requires Apart(known, batch) && SameExceptUuid(batch, again) && i < |batch|
    requires ResolvedId(later, again[i]) == ResolvedId(known, batch[i])
    ensures var result := Upsert(env, known, table, batch);
            ResolvedId(later, again[i]) in result && Merged(result, RecordOf(env, later, again[i])) == result[ResolvedId(later, again[i])]
  {
    UpsertOfApart(env, known, table, batch);
    assert batch[i] in batch;
    assert RecordOf(env, later, again[i]) == RecordOf(env, known, batch[i]);
  }

  lemma StaysApart(env: Env, table: Table, batch: seq<Incoming>, again: seq<Incoming>)
    requires WellKeyed(table) && UniqueDestinations(table)
    requires Apart(Known(table, Wanted(batch)), batch) && SameExceptUuid(batch, again)
    requires FreshUuids(Upsert(env, Known(table, Wanted(batch)), table, batch), again)
    ensures Apart(Known(Upsert(env, Known(table, Wanted(batch)), table, batch), Wanted(again)), again)
  {
    var known := Known(table, Wanted(batch));
    var result := Upsert(env, known, table, batch);
    var later := Known(result, Wanted(again));
    UpsertOfApart(env, known, table, batch);
    forall i | 0 <= i < |batch|
      ensures ResolvedId(known, batch[i]) in result
      ensures ResolvedId(later, again[i]) == if Anonymous(batch[i]) then again[i].uuid else ResolvedId(known, batch[i])
    {
      assert batch[i] in batch;
      AgainResolves(env, table, batch, again, i);
    }
    forall i, j | 0 <= i < j < |again|
      ensures KeyIn(later, again[i]) != KeyIn(later, again[j])
      ensures ResolvedId(later, again[i]) != ResolvedId(later, again[j])
    {
      PairStaysApart(known, later, result, batch, again, i, j);
    }
  }

  lemma PairStaysApart(
    known: map<string, string>, later: map<string, string>, result: Table, batch: seq<Incoming>, again: seq<Incoming>, i: nat, j: nat)
    requires Apart(known, batch) && SameExceptUuid(batch, again) && FreshUuids(result, again) && i < j < |batch|
    requires forall k :: 0 <= k < |batch| ==> ResolvedId(known, batch[k]) in result
    requires forall k :: 0 <= k < |batch| ==>
               ResolvedId(later, again[k]) == if Anonymous(batch[k]) then again[k].uuid else ResolvedId(known, batch[k])
    ensures KeyIn(later, again[i]) != KeyIn(later, again[j])
    ensures ResolvedId(later, again[i]) != ResolvedId(later, again[j])
  {
    assert KeyIn(known, batch[i]) != KeyIn(known, batch[j]);
    assert ResolvedId(known, batch[i]) != ResolvedId(known, batch[j]);
    assert again[i].uuid != again[j].destPath && again[j].uuid != again[i].destPath;
  }
}
