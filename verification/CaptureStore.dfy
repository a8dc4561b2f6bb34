/** The repository object: the table in place, `upsert_captures` step by step, and `fix_capture_dates`. */
module CaptureStore {
  import opened Text
  import opened Dates
  import opened Dictionaries
  import opened Captures

  /** The loop that fills `records_by_key`. */
  method IndexByKey(env: Env, known: map<string, string>, batch: seq<Incoming>) returns (recordsByKey: Dict<Row>)
    ensures recordsByKey == ByKey(Normalized(env, known, batch))
  {
    ghost var rows := Normalized(env, known, batch);
    recordsByKey := [];
    for k := 0 to |batch|
      invariant recordsByKey == ByKey(rows[..k])
    {
      var record := RecordOf(env, known, batch[k]);
      assert rows[..k + 1][..k] == rows[..k];
      recordsByKey := Put(recordsByKey, KeyOf(record), record);
    }
    assert rows[..|batch|] == rows;
  }

  /** The dictionary comprehension that keeps the last record of each id. */
  method IndexById(rows: seq<Row>) returns (recordsById: Dict<Row>)
    ensures recordsById == ById(rows)
  {
    recordsById := [];
    for k := 0 to |rows|
      invariant recordsById == ById(rows[..k])
    {
      assert rows[..k + 1][..k] == rows[..k];
      recordsById := Put(recordsById, rows[k].id, rows[k]);
    }
    assert rows[..|rows|] == rows;
  }

  lemma ChunkHasDistinctIds(records: seq<Row>, start: nat, end: nat)
    requires start <= end <= |records| && DistinctIds(records)
    ensures DistinctIds(records[start..end])
  {
    var chunk := records[start..end];
    assert forall i :: 0 <= i < |chunk| ==> chunk[i] == records[start + i];
  }

  class Store {
    var captures: Table

    constructor ()
      ensures captures == map[]
    {
      captures := map[];
    }

    /** The lookup of the ids stored for a set of destinations, as a dictionary. */
    method IdsByDestination(wanted: set<string>) returns (known: map<string, string>)
      ensures KnownFor(captures, known, wanted)
    {
      known := map[];
      var todo := captures.Keys;
      while todo != {}
        invariant todo <= captures.Keys
        invariant KnownFor(map id | id in captures && id !in todo :: captures[id], known, wanted)
        decreases todo
      {
        var id :| id in todo;
        if captures[id].destPath in wanted {
          known := known[captures[id].destPath := id];
        }
        todo := todo - {id};
      }
      assert (map id | id in captures && id !in todo :: captures[id]) == captures;
    }

    /** One INSERT ... ON CONFLICT statement; PostgreSQL refuses to touch an id twice in one statement. */
    method Execute(chunk: seq<Row>)
      requires DistinctIds(chunk)
      modifies this
      ensures captures == ApplyAll(old(captures), chunk)
    {
      for k := 0 to |chunk|
        invariant captures == ApplyAll(old(captures), chunk[..k])
      {
        ApplyAllAppend(old(captures), chunk[..k], [chunk[k]]);
        assert chunk[..k + 1] == chunk[..k] + [chunk[k]];
        var r := chunk[k];
        if r.id in captures {
          captures := captures[r.id := r.(favourite := captures[r.id].favourite)];
        } else {
          captures := captures[r.id := r];
        }
      }
      assert chunk[..|chunk|] == chunk;
    }

    /** Writes records in chunks; the chunk size makes no difference. */
    method WriteChunks(records: seq<Row>, chunkSize: nat)
      requires chunkSize > 0 && DistinctIds(records)
      modifies this
      ensures captures == ApplyAll(old(captures), records)
    {
      var start := 0;
      while start < |records|
        invariant 0 <= start <= |records|
        invariant captures == ApplyAll(old(captures), records[..start])
      {
        var end := if start + chunkSize < |records| then start + chunkSize else |records|;
        var chunk := records[start..end];
        ChunkHasDistinctIds(records, start, end);
        ApplyAllAppend(old(captures), records[..start], chunk);
        assert records[..end] == records[..start] + chunk;
        Execute(chunk);
        start := end;
      }
      assert records[..start] == records;
    }

    /** `upsert_captures`, for any size of the chunks that the records are written in. */
    method UpsertCaptures(env: Env, batch: seq<Incoming>, chunkSize: nat) returns (ghost known: map<string, string>)
      requires chunkSize > 0
      modifies this
      ensures KnownFor(old(captures), known, Wanted(batch))
      ensures captures == Upsert(env, known, old(captures), batch)
    {
      var existing := map[];
      if Wanted(batch) != {} {
        existing := IdsByDestination(Wanted(batch));
      }
      known := existing;
      var recordsByKey := IndexByKey(env, existing, batch);
      var recordsById := IndexById(Values(recordsByKey));
      RecordsAreDeduplicated(env, existing, batch);
      WriteChunks(Values(recordsById), chunkSize);
    }

    /** `load_captures`, in any order. */
    method LoadCaptures() returns (rows: seq<Row>)
      requires WellKeyed(captures)
      ensures DistinctIds(rows)
      ensures forall r :: r in rows ==> r.id in captures && captures[r.id] == r
      ensures forall id :: id in captures ==> captures[id] in rows
    {
      rows := [];
      var todo := captures.Keys;
      while todo != {}
        invariant todo <= captures.Keys
        invariant DistinctIds(rows)
        invariant forall r :: r in rows ==> r.id in captures && captures[r.id] == r && r.id !in todo
        invariant forall id :: id in captures && id !in todo ==> captures[id] in rows
        decreases todo
      {
        var id :| id in todo;
        rows := rows + [captures[id]];
        todo := todo - {id};
      }
    }

    /**
     `fix_capture_dates`. Every misdated row that keeps its id gets the date of its file name and its day, and
     nothing else of it changes; all other rows are untouched. A misdated row that has neither a destination nor an
     id of its own stays misdated, and a corrected copy of it is added under a new id.
     */
    method FixCaptureDates(env: Env, chunkSize: nat, uuids: seq<string>)
      returns (total: nat, updated: nat, noPattern: nat, good: nat)
      requires chunkSize > 0
      requires WellKeyed(captures) && UniqueDestinations(captures)
      requires |uuids| >= |captures|
      requires forall i, j :: 0 <= i < j < |uuids| ==> uuids[i] != uuids[j]
      requires forall u :: u in uuids ==> u !in captures
      modifies this
      ensures forall id :: id in old(captures) ==> id in captures && captures[id] == FixedRow(env, old(captures)[id])
      ensures captures.Keys <= old(captures).Keys + set u | u in uuids
      ensures forall id :: id in captures && id !in old(captures) ==> CopiesLost(env, old(captures), captures[id])
      ensures forall id :: id in old(captures) && LosesId(env, old(captures)[id]) ==> HasCopy(env, captures, old(captures)[id])
      ensures (forall id :: id in old(captures) ==> !Misdated(env, captures[id]))
              <==> forall id :: id in old(captures) ==> !LosesId(env, old(captures)[id])
      ensures total == |old(captures)|
      ensures updated == |Which(old(captures), IsMisdated(env))|
      ensures noPattern == |Which(old(captures), HasNoDate(env))|
      ensures good == |Which(old(captures), IsWellDated(env))|
      ensures updated == 0 ==> captures == old(captures)
      ensures updated == 0 <==> forall id :: id in old(captures) ==> !Misdated(env, old(captures)[id])
    {
      var rows := LoadCaptures();
      IdsAreNoMore(rows, captures.Keys);
      ghost var before := captures;
      updated, noPattern, good := CorrectRows(env, chunkSize, rows, uuids, before);
      AllFixed(env, before, captures, rows, uuids);
      AllCopied(env, before, captures, rows, uuids);
      FixingSucceedsExactly(env, before);
      CountIsSize(IsMisdated(env), before, rows);
      CountIsSize(HasNoDate(env), before, rows);
      CountIsSize(IsWellDated(env), before, rows);
      ListingSize(before, rows);
      WhichIsEmpty(before, IsMisdated(env));
      total := |rows|;
    }

    /** What the loop of `fix_capture_dates` does with its k-th row. */
    method CorrectRow(env: Env, chunkSize: nat, rows: seq<Row>, k: nat, uuids: seq<string>, ghost before: Table)
      returns (outcome: Outcome)
      requires chunkSize > 0 && k < |rows| && ToFix(before, rows, uuids)
      requires FixedUpTo(env, before, captures, rows, k, uuids)
      modifies this
      ensures FixedUpTo(env, before, captures, rows, k + 1, uuids)
      ensures outcome == OutcomeFor(env, rows[k])
      ensures !outcome.Updated? ==> captures == old(captures)
    {
      var c := rows[k];
      var realDate := DateTimeText(env.filenameDate(c.filename));
      var current := DateTimeText(c.captureDate);
      DatesAsText(env, c);
      UuidIsUnused(env, before, captures, rows, k, uuids);
      if realDate == "" {
        SkipStep(env, before, captures, rows, k, uuids);
        return NoPattern;
      }
      if current != "" && current == realDate {
        SkipStep(env, before, captures, rows, k, uuids);
        return AlreadyGood;
      }
      ghost var table := captures;
      ghost var known := UpsertCaptures(env, [IncomingOf(c, uuids[k])], chunkSize);
      FixNext(env, known, before, table, rows, k, uuids);
      outcome := Updated;
    }

    /** The loop of `fix_capture_dates` over the rows it has loaded. */
    method CorrectRows(env: Env, chunkSize: nat, rows: seq<Row>, uuids: seq<string>, ghost before: Table)
      returns (updated: nat, noPattern: nat, good: nat)
      requires chunkSize > 0 && ToFix(before, rows, uuids)
      requires captures == before && WellKeyed(before) && UniqueDestinations(before)
      modifies this
      ensures FixedUpTo(env, before, captures, rows, |rows|, uuids)
      ensures Counted(env, rows, |rows|, updated, noPattern, good)
      ensures updated == 0 ==> captures == before
    {
      updated, noPattern, good := 0, 0, 0;
      NothingFixedYet(env, before, rows, uuids);
      for k := 0 to |rows|
        invariant Counted(env, rows, k, updated, noPattern, good)
        invariant FixedUpTo(env, before, captures, rows, k, uuids)
        invariant updated == 0 ==> captures == before
      {
        var outcome := CorrectRow(env, chunkSize, rows, k, uuids, before);
        CountNext(env, rows, k, updated, noPattern, good);
        noPattern := noPattern + if outcome.NoPattern? then 1 else 0;
        good := good + if outcome.AlreadyGood? then 1 else 0;
        updated := updated + if outcome.Updated? then 1 else 0;
      }
    }
  }

  /** What the loop of `fix_capture_dates` does with a row. */
  function OutcomeFor(env: Env, r: Row): Outcome {
    if env.filenameDate(r.filename).None? then NoPattern else if Misdated(env, r) then Updated else AlreadyGood
  }

  /** The three counters after `k` rows. */
  ghost predicate Counted(env: Env, rows: seq<Row>, k: nat, updated: nat, noPattern: nat, good: nat)
    requires k <= |rows|
  {
    && updated == CountRows(IsMisdated(env), rows, k)
    && noPattern == CountRows(HasNoDate(env), rows, k)
    && good == CountRows(IsWellDated(env), rows, k)
  }

  lemma CountNext(env: Env, rows: seq<Row>, k: nat, updated: nat, noPattern: nat, good: nat)
    requires k < |rows| && Counted(env, rows, k, updated, noPattern, good)
    ensures var outcome := OutcomeFor(env, rows[k]);
            Counted(env, rows, k + 1, updated + if outcome.Updated? then 1 else 0,
                    noPattern + if outcome.NoPattern? then 1 else 0, good + if outcome.AlreadyGood? then 1 else 0)
  {
  }

  function IsMisdated(env: Env): Row -> bool {
    (r: Row) => Misdated(env, r)
  }

  function HasNoDate(env: Env): Row -> bool {
    (r: Row) => env.filenameDate(r.filename).None?
  }

  function IsWellDated(env: Env): Row -> bool {
    (r: Row) => env.filenameDate(r.filename).Some? && !Misdated(env, r)
  }

  /** The ids of the rows that meet `p`. */
  function Which(table: Table, p: Row -> bool): set<string> {
    set id | id in table && p(table[id])
  }

  function CountRows(p: Row -> bool, rows: seq<Row>, k: nat): nat
    requires k <= |rows|
  {
    if k == 0 then 0 else CountRows(p, rows, k - 1) + if p(rows[k - 1]) then 1 else 0
  }

  lemma WhichIsEmpty(table: Table, p: Row -> bool)
    ensures |Which(table, p)| == 0 <==> forall id :: id in table ==> !p(table[id])
  {
    forall id | id in table && p(table[id]) ensures id in Which(table, p) {
    }
  }

  function IdsWhere(p: Row -> bool, rows: seq<Row>): set<string> {
    set r | r in rows && p(r) :: r.id
  }

  lemma {:induction false} CountIsCardinality(p: Row -> bool, rows: seq<Row>, k: nat)
    requires k <= |rows| && DistinctIds(rows)
    ensures CountRows(p, rows, k) == |IdsWhere(p, rows[..k])|
  {
    if k > 0 {
      CountIsCardinality(p, rows, k - 1);
      assert rows[..k] == rows[..k - 1] + [rows[k - 1]];
      forall r | r in rows[..k - 1] ensures r.id != rows[k - 1].id {
        var i :| 0 <= i < k - 1 && rows[i] == r;
      }
      OneMoreId(p, rows[..k - 1], rows[k - 1]);
    }
  }

  lemma OneMoreId(p: Row -> bool, rows: seq<Row>, last: Row)
    requires forall r :: r in rows ==> r.id != last.id
    ensures |IdsWhere(p, rows + [last])| == |IdsWhere(p, rows)| + if p(last) then 1 else 0
  {
    var before, after := IdsWhere(p, rows), IdsWhere(p, rows + [last]);
    assert after == if p(last) then before + {last.id} else before;
  }

  lemma CountIsSize(p: Row -> bool, table: Table, rows: seq<Row>)
    requires DistinctIds(rows)
    requires forall r :: r in rows ==> r.id in table && table[r.id] == r
    requires forall id :: id in table ==> table[id] in rows && table[id].id == id
    ensures CountRows(p, rows, |rows|) == |Which(table, p)|
  {
    CountIsCardinality(p, rows, |rows|);
    assert rows[..|rows|] == rows;
    assert Which(table, p) == IdsWhere(p, rows);
  }

  lemma ListingSize(table: Table, rows: seq<Row>)
    requires DistinctIds(rows)
    requires forall r :: r in rows ==> r.id in table && table[r.id] == r
    requires forall id :: id in table ==> table[id] in rows && table[id].id == id
    ensures |rows| == |table|
  {
    CountIsSize(_ => true, table, rows);
    assert Which(table, _ => true) == table.Keys;
    AllCount(rows, |rows|);
    assert |table.Keys| == |table|;
  }

  lemma {:induction false} AllCount(rows: seq<Row>, k: nat)
    requires k <= |rows|
    ensures CountRows(_ => true, rows, k) == k
  {
    if k > 0 {
      AllCount(rows, k - 1);
    }
  }

  /** The rows of a table, and fresh identifiers in case they are needed. */
  ghost predicate ToFix(before: Table, rows: seq<Row>, uuids: seq<string>) {
    && |rows| <= |uuids| && DistinctIds(rows)
    && (forall r :: r in rows ==> r.id in before && before[r.id] == r)
    && (forall i, j :: 0 <= i < j < |uuids| ==> uuids[i] != uuids[j])
    && (forall u :: u in uuids ==> u !in before)
  }

  datatype Outcome = NoPattern | AlreadyGood | Updated

  lemma NothingFixedYet(env: Env, before: Table, rows: seq<Row>, uuids: seq<string>)
    requires WellKeyed(before) && UniqueDestinations(before) && |rows| <= |uuids|
    requires forall r :: r in rows ==> r.id in before && before[r.id] == r
    ensures FixedUpTo(env, before, before, rows, 0, uuids)
  {
    assert forall i :: 0 <= i < |rows| ==> rows[i] in rows;
  }

  lemma AllFixed(env: Env, before: Table, after: Table, rows: seq<Row>, uuids: seq<string>)
    requires WellKeyed(before) && |rows| <= |uuids|
    requires forall r :: r in rows ==> r.id in before && before[r.id] == r
    requires forall id :: id in before ==> before[id] in rows
    requires FixedUpTo(env, before, after, rows, |rows|, uuids)
    ensures forall id :: id in before ==> id in after && after[id] == FixedRow(env, before[id])
    ensures after.Keys <= before.Keys + set u | u in uuids
  {
    forall id | id in before ensures after[id] == FixedRow(env, before[id]) {
      var i :| 0 <= i < |rows| && rows[i] == before[id];
    }
    forall id | id in after && id !in before ensures id in uuids {
      var i :| 0 <= i < |rows| && uuids[i] == id;
      assert uuids[i] == id;
    }
  }

  /** The corrected copy that a row without an id of its own gets. */
  function Copy(env: Env, r: Row, id: string): Row {
    Redated(env, r).(id := id, favourite := false)
  }

  ghost predicate CopiesLost(env: Env, before: Table, copy: Row) {
    exists id :: id in before && LosesId(env, before[id]) && copy == Copy(env, before[id], copy.id)
  }

  ghost predicate HasCopy(env: Env, table: Table, r: Row) {
    exists id :: id in table && id != r.id && table[id] == Copy(env, r, id)
  }

  lemma AllCopied(env: Env, before: Table, after: Table, rows: seq<Row>, uuids: seq<string>)
    requires WellKeyed(before) && |rows| <= |uuids|
    requires forall r :: r in rows ==> r.id in before && before[r.id] == r
    requires forall id :: id in before ==> before[id] in rows
    requires forall u :: u in uuids ==> u !in before
    requires FixedUpTo(env, before, after, rows, |rows|, uuids)
    ensures forall id :: id in after && id !in before ==> CopiesLost(env, before, after[id])
    ensures forall id :: id in before && LosesId(env, before[id]) ==> HasCopy(env, after, before[id])
  {
    forall id | id in after && id !in before ensures CopiesLost(env, before, after[id]) {
      var i :| 0 <= i < |rows| && uuids[i] == id;
      assert uuids[i] == id && rows[i] in rows;
      assert after[id] == Copy(env, before[rows[i].id], after[id].id);
    }
    forall id | id in before && LosesId(env, before[id]) ensures HasCopy(env, after, before[id]) {
      var i :| 0 <= i < |rows| && rows[i] == before[id];
      assert uuids[i] in uuids;
      assert after[uuids[i]] == Copy(env, before[id], uuids[i]);
    }
  }

  /** The state of the loop of `fix_capture_dates` after `k` rows. */
  ghost predicate FixedUpTo(env: Env, before: Table, table: Table, rows: seq<Row>, k: nat, uuids: seq<string>)
    requires k <= |rows| && |rows| <= |uuids|
  {
    && WellKeyed(table) && UniqueDestinations(table)
    && IdsUpTo(before, table, k, uuids)
    && RowsUpTo(env, table, rows, k)
    && CopiesUpTo(env, table, rows, k, uuids)
  }

  ghost predicate IdsUpTo(before: Table, table: Table, k: nat, uuids: seq<string>)
    requires k <= |uuids|
  {
    && (forall id :: id in before ==> id in table)
    && (forall id :: id in table && id !in before ==> Drawn(uuids, k, id))
  }

  /** One of the first `k` identifiers. */
  ghost predicate Drawn(uuids: seq<string>, k: nat, id: string)
    requires k <= |uuids|
  {
    exists i :: 0 <= i < k && uuids[i] == id
  }

  ghost predicate RowsUpTo(env: Env, table: Table, rows: seq<Row>, k: nat)
    requires k <= |rows|
  {
    && (forall i :: 0 <= i < k ==> rows[i].id in table && table[rows[i].id] == FixedRow(env, rows[i]))
    && (forall i :: k <= i < |rows| ==> rows[i].id in table && table[rows[i].id] == rows[i])
  }

  ghost predicate CopiesUpTo(env: Env, table: Table, rows: seq<Row>, k: nat, uuids: seq<string>)
    requires k <= |rows| && |rows| <= |uuids|
  {
    && (forall i :: 0 <= i < k ==> (uuids[i] in table <==> LosesId(env, rows[i])))
    && (forall i :: 0 <= i < k && LosesId(env, rows[i]) ==> table[uuids[i]] == Copy(env, rows[i], uuids[i]))
  }

  lemma FixNext(env: Env, known: map<string, string>, before: Table, table: Table, rows: seq<Row>, k: nat, uuids: seq<string>)
    requires k < |rows| <= |uuids| && DistinctIds(rows)
    requires forall i, j :: 0 <= i < j < |uuids| ==> uuids[i] != uuids[j]
    requires forall u :: u in uuids ==> u !in before
    requires forall r :: r in rows ==> r.id in before && before[r.id] == r
    requires FixedUpTo(env, before, table, rows, k, uuids) && Misdated(env, rows[k])
    requires KnownFor(table, known, Wanted([IncomingOf(rows[k], uuids[k])]))
    ensures FixedUpTo(env, before, Upsert(env, known, table, [IncomingOf(rows[k], uuids[k])]), rows, k + 1, uuids)
  {
    var c, uuid := rows[k], uuids[k];
    UpsertKeepsInvariants(env, known, table, [IncomingOf(c, uuid)]);
    assert c in rows;
    UuidIsUnused(env, before, table, rows, k, uuids);
    FixOne(env, known, table, c, uuid);
    FixStep(env, before, table, Upsert(env, known, table, [IncomingOf(c, uuid)]), rows, k, uuids);
  }

  lemma UuidIsUnused(env: Env, before: Table, table: Table, rows: seq<Row>, k: nat, uuids: seq<string>)
    requires k < |rows| <= |uuids|
    requires forall i, j :: 0 <= i < j < |uuids| ==> uuids[i] != uuids[j]
    requires forall u :: u in uuids ==> u !in before
    requires FixedUpTo(env, before, table, rows, k, uuids)
    ensures uuids[k] !in table
  {
    assert uuids[k] in uuids;
    assert !Drawn(uuids, k, uuids[k]);
  }

  lemma FixStep(env: Env, before: Table, table: Table, next: Table, rows: seq<Row>, k: nat, uuids: seq<string>)
    requires k < |rows| <= |uuids| && DistinctIds(rows)
    requires forall i, j :: 0 <= i < j < |uuids| ==> uuids[i] != uuids[j]
    requires forall u :: u in uuids ==> u !in before
    requires forall r :: r in rows ==> r.id in before && before[r.id] == r
    requires FixedUpTo(env, before, table, rows, k, uuids) && Misdated(env, rows[k]) && uuids[k] !in table
    requires next == if LosesId(env, rows[k]) then table[uuids[k] := Copy(env, rows[k], uuids[k])]
                     else table[rows[k].id := Redated(env, rows[k])]
    requires WellKeyed(next) && UniqueDestinations(next)
    ensures FixedUpTo(env, before, next, rows, k + 1, uuids)
  {
    var changed := if LosesId(env, rows[k]) then uuids[k] else rows[k].id;
    assert rows[k] in rows && uuids[k] in uuids;
    assert forall id :: id != changed ==> (id in next <==> id in table) && (id in next ==> next[id] == table[id]);
    forall i | 0 <= i < |rows| && i != k ensures rows[i].id != changed {
      assert rows[i] in rows;
      OtherRowStays(rows, i, k);
    }
    forall i | 0 <= i < k ensures uuids[i] != changed {
      assert uuids[i] in uuids;
    }
    StepFrom(env, before, table, next, rows, k, uuids, changed);
  }

  /** A step that changes at most one entry, and brings the k-th row to its final state. */
  lemma StepFrom(env: Env, before: Table, table: Table, next: Table, rows: seq<Row>, k: nat, uuids: seq<string>, changed: string)
    requires k < |rows| <= |uuids|
    requires FixedUpTo(env, before, table, rows, k, uuids) && WellKeyed(next) && UniqueDestinations(next)
    requires forall id :: id != changed ==> (id in next <==> id in table) && (id in next ==> next[id] == table[id])
    requires changed in next && (changed !in table ==> changed == uuids[k])
    requires forall i :: 0 <= i < |rows| && i != k ==> rows[i].id != changed
    requires forall i :: 0 <= i < k ==> uuids[i] != changed
    requires rows[k].id in next && next[rows[k].id] == FixedRow(env, rows[k])
    requires uuids[k] in next <==> LosesId(env, rows[k])
    requires LosesId(env, rows[k]) ==> next[uuids[k]] == Copy(env, rows[k], uuids[k])
    ensures FixedUpTo(env, before, next, rows, k + 1, uuids)
  {
    IdsStep(before, table, next, k, uuids, changed);
    RowsStep(env, table, next, rows, k, changed);
  }

  lemma IdsStep(before: Table, table: Table, next: Table, k: nat, uuids: seq<string>, changed: string)
    requires k < |uuids| && IdsUpTo(before, table, k, uuids)
    requires forall id :: id != changed ==> (id in next <==> id in table)
    requires changed in next && (changed !in table ==> changed == uuids[k])
    ensures IdsUpTo(before, next, k + 1, uuids)
  {
    forall id | id in next && id !in before ensures Drawn(uuids, k + 1, id) {
      if id in table {
        DrawnStays(uuids, k, id);
      } else {
        assert uuids[k] == id;
      }
    }
  }

  lemma DrawnStays(uuids: seq<string>, k: nat, id: string)
    requires k < |uuids| && Drawn(uuids, k, id)
    ensures Drawn(uuids, k + 1, id)
  {
    var i :| 0 <= i < k && uuids[i] == id;
    assert i < k + 1;
  }

  lemma RowsStep(env: Env, table: Table, next: Table, rows: seq<Row>, k: nat, changed: string)
    requires k < |rows| && RowsUpTo(env, table, rows, k)
    requires forall id :: id != changed ==> (id in next <==> id in table) && (id in next ==> next[id] == table[id])
    requires forall i :: 0 <= i < |rows| && i != k ==> rows[i].id != changed
    requires rows[k].id in next && next[rows[k].id] == FixedRow(env, rows[k])
    ensures RowsUpTo(env, next, rows, k + 1)
  {
  }

  lemma SkipStep(env: Env, before: Table, table: Table, rows: seq<Row>, k: nat, uuids: seq<string>)
    requires k < |rows| <= |uuids| && uuids[k] !in table
    requires FixedUpTo(env, before, table, rows, k, uuids) && !Misdated(env, rows[k])
    ensures FixedUpTo(env, before, table, rows, k + 1, uuids)
  {
    forall id | id in table && id !in before ensures Drawn(uuids, k + 1, id) {
      DrawnStays(uuids, k, id);
    }
  }

  lemma OtherRowStays(rows: seq<Row>, i: nat, k: nat)
    requires i < |rows| && k < |rows| && i != k && DistinctIds(rows)
    ensures rows[i].id != rows[k].id
  {
  }

  lemma {:induction false} IdsAreNoMore(rows: seq<Row>, ids: set<string>)
    requires DistinctIds(rows)
    requires forall r :: r in rows ==> r.id in ids
    ensures |rows| <= |ids|
  {
    if rows != [] {
      var rest := rows[1..];
      forall r | r in rest ensures r.id in ids - {rows[0].id} {
        var i :| 0 <= i < |rest| && rest[i] == r;
        assert rows[0].id != rows[i + 1].id;
      }
      IdsAreNoMore(rest, ids - {rows[0].id});
    }
  }

  /** A row as `load_captures` hands it out and `upsert_captures` takes it back. */
  function IncomingOf(r: Row, uuid: string): Incoming {
    Incoming(r.id, r.filename, r.mtime, DateTimeText(r.captureDate), r.sourcePath, r.destPath, r.details, uuid)
  }

  /** The file name has a date, and it is not the stored one. */
  predicate Misdated(env: Env, r: Row) {
    env.filenameDate(r.filename).Some? && r.captureDate != env.filenameDate(r.filename)
  }

  /** Upserting the row again would give it a new id. */
  predicate LosesId(env: Env, r: Row) {
    Misdated(env, r) && r.destPath == "" && NeedsNewId(r.id)
  }

  function Redated(env: Env, r: Row): Row {
    var date := env.filenameDate(r.filename);
    r.(captureDate := date, captureDay := if date.Some? then Some(DayOfDateTime(date.value)) else r.captureDay)
  }

  function FixedRow(env: Env, r: Row): Row {
    if Misdated(env, r) && !LosesId(env, r) then Redated(env, r) else r
  }

  /** Comparing the texts of two dates compares the dates. */
  lemma DatesAsText(env: Env, r: Row)
    ensures var fromName, current := DateTimeText(env.filenameDate(r.filename)), DateTimeText(r.captureDate);
            && (fromName == "" <==> env.filenameDate(r.filename).None?)
            && (fromName != "" ==> (current == fromName <==> !Misdated(env, r)))
  {
    var date := env.filenameDate(r.filename);
    if date.Some? && r.captureDate.Some? && DateTimeText(date) == DateTimeText(r.captureDate) {
      IsoTextIsInjective(date.value, r.captureDate.value);
    }
  }

  /** The date in the file name is what an upsert stores. */
  lemma FilenameDateWins(env: Env, filename: string, dateText: string)
    requires env.filenameDate(filename).Some?
    ensures CaptureDate(env, filename, dateText) == env.filenameDate(filename)
  {
    IsoTextRoundTrips(env.filenameDate(filename).value, env.parse);
  }

  lemma FixOne(env: Env, known: map<string, string>, table: Table, c: Row, uuid: string)
    requires WellKeyed(table) && UniqueDestinations(table)
    requires c.id in table && table[c.id] == c && Misdated(env, c) && uuid !in table
    requires KnownFor(table, known, Wanted([IncomingOf(c, uuid)]))
    ensures Upsert(env, known, table, [IncomingOf(c, uuid)]) ==
            if LosesId(env, c) then table[uuid := Copy(env, c, uuid)]
            else table[c.id := Redated(env, c)]
  {
    var one := IncomingOf(c, uuid);
    assert one in [one];
    RecordsOfApart(env, known, [one]);
    FilenameDateWins(env, c.filename, one.dateText);
    var r := RecordOf(env, known, one);
    assert r == Redated(env, c).(id := ResolvedId(known, one), favourite := false);
    var rows := [r];
    assert Normalized(env, known, [one]) == rows;
    assert rows[1..] == [] && ApplyAll(table, rows) == ApplyRow(table, rows[0]);
    if c.destPath != "" {
      assert table[c.id].destPath in Wanted([one]);
    }
  }

  // ---- Tables that only upserts have written ----

  ghost predicate WellDated(env: Env, table: Table) {
    forall id :: id in table ==> !Misdated(env, table[id])
  }

  /** An upsert stores no wrong date, so on a table built by upserts there is nothing to fix. */
  lemma UpsertKeepsDates(env: Env, known: map<string, string>, table: Table, batch: seq<Incoming>)
    requires WellDated(env, table)
    ensures WellDated(env, Upsert(env, known, table, batch))
  {
    var rows := Records(env, known, batch);
    var result := Upsert(env, known, table, batch);
    RecordsAreDeduplicated(env, known, batch);
    ApplyAllWrites(table, rows);
    forall id | id in result ensures !Misdated(env, result[id]) {
      if r :| r in rows && r.id == id {
        var c :| c in batch && r == RecordOf(env, known, c);
        RecordIsWellDated(env, known, c);
      }
    }
  }

  lemma RecordIsWellDated(env: Env, known: map<string, string>, c: Incoming)
    ensures !Misdated(env, RecordOf(env, known, c))
  {
    if env.filenameDate(c.filename).Some? {
      FilenameDateWins(env, c.filename, c.dateText);
    }
  }

  /** Fixing dates leaves a well-dated table exactly when no misdated row loses its id. */
  lemma FixingSucceedsExactly(env: Env, table: Table)
    ensures (forall id :: id in table ==> !Misdated(env, FixedRow(env, table[id]))) <==> forall id :: id in table ==> !LosesId(env, table[id])
  {
    forall id | id in table ensures Misdated(env, FixedRow(env, table[id])) <==> LosesId(env, table[id]) {
      assert Misdated(env, Redated(env, table[id])) == false;
    }
  }

  /** Rows that lose their id do not come from upserts: on a table that only upserts have written there are none. */
  lemma UpsertsStoreNoLostRows(env: Env, known: map<string, string>, table: Table, batch: seq<Incoming>)
    requires forall id :: id in table ==> !LosesId(env, table[id])
    ensures forall id :: id in Upsert(env, known, table, batch) ==> !LosesId(env, Upsert(env, known, table, batch)[id])
  {
    var rows := Records(env, known, batch);
    var result := Upsert(env, known, table, batch);
    RecordsAreDeduplicated(env, known, batch);
    ApplyAllWrites(table, rows);
    forall id | id in result ensures !LosesId(env, result[id]) {
      if r :| r in rows && r.id == id {
        var c :| c in batch && r == RecordOf(env, known, c);
        RecordIsWellDated(env, known, c);
      }
    }
  }

  /**
   Such a row is one of an older table: it has a path for an id and no destination, and no date although its name has one.
   Fixing dates leaves it as it is and adds a copy.
   */
  lemma OldRowIsNotFixed(env: Env, known: map<string, string>, table: Table, r: Row, uuid: string)
    requires WellKeyed(table) && UniqueDestinations(table) && r.id in table && table[r.id] == r && uuid !in table
    requires PathLike(r.id) && r.destPath == "" && r.captureDate == None && env.filenameDate(r.filename).Some?
    requires KnownFor(table, known, Wanted([IncomingOf(r, uuid)]))
    ensures LosesId(env, r)
    ensures var after := Upsert(env, known, table, [IncomingOf(r, uuid)]);
            r.id in after && after[r.id] == r && Misdated(env, after[r.id]) && uuid in after && after[uuid] == Copy(env, r, uuid)
  {
    FixOne(env, known, table, r, uuid);
  }

  // ---- The batches that downloads register ----

  /** A batch of newly found files: every record has a destination and a path for an id. */
  lemma RegisteringAddsDestinations(env: Env, known: map<string, string>, table: Table, batch: seq<Incoming>)
    requires WellKeyed(table) && UniqueDestinations(table) && KnownFor(table, known, Wanted(batch))
    requires forall c :: c in batch ==> c.destPath != "" && PathLike(c.id) && c.uuid !in table
    requires forall i, j :: 0 <= i < j < |batch| ==> batch[i].destPath != batch[j].destPath && batch[i].uuid != batch[j].uuid
    ensures Destinations(Upsert(env, known, table, batch)) == Destinations(table) + Wanted(batch)
  {
    RegisteredRecordsAreApart(known, table, batch);
    var result := Upsert(env, known, table, batch);
    forall d | d in Destinations(table) ensures d in Destinations(result) {
      var id :| id in table && table[id].destPath == d;
      RegisteringKeepsRow(env, known, table, batch, id);
    }
    forall d | d in Wanted(batch) ensures d in Destinations(result) {
      var c :| c in batch && c.destPath == d;
      RowOfRecord(env, known, table, batch, c);
      assert result[ResolvedId(known, c)].destPath == d;
    }
    forall d | d in Destinations(result) ensures d in Destinations(table) + Wanted(batch) {
      var id :| id in result && result[id].destPath == d;
      RegisteredDestination(env, known, table, batch, id);
    }
  }

  /** A destination in the table afterwards was there before or is one of the batch. */
  lemma RegisteredDestination(env: Env, known: map<string, string>, table: Table, batch: seq<Incoming>, id: string)
    requires Apart(known, batch) && id in Upsert(env, known, table, batch) && forall c :: c in batch ==> c.destPath != ""
    ensures var d := Upsert(env, known, table, batch)[id].destPath;
            d in Wanted(batch) || (id in table && table[id].destPath == d)
  {
    RowOfBatch(env, known, table, batch, id);
    if c :| c in batch && ResolvedId(known, c) == id {
      RowOfRecord(env, known, table, batch, c);
      assert c.destPath in Wanted(batch);
    }
  }

  lemma RegisteredRecordsAreApart(known: map<string, string>, table: Table, batch: seq<Incoming>)
    requires KnownFor(table, known, Wanted(batch))
    requires forall c :: c in batch ==> c.destPath != "" && PathLike(c.id) && c.uuid !in table
    requires forall i, j :: 0 <= i < j < |batch| ==> batch[i].destPath != batch[j].destPath && batch[i].uuid != batch[j].uuid
    ensures Apart(known, batch)
  {
    forall i, j | 0 <= i < j < |batch|
      ensures KeyIn(known, batch[i]) != KeyIn(known, batch[j])
      ensures ResolvedId(known, batch[i]) != ResolvedId(known, batch[j])
    {
      assert batch[i] in batch && batch[j] in batch;
    }
  }

  /** No stored row loses its destination to such a batch. */
  lemma RegisteringKeepsRow(env: Env, known: map<string, string>, table: Table, batch: seq<Incoming>, id: string)
    requires KnownFor(table, known, Wanted(batch)) && Apart(known, batch) && id in table
    requires forall c :: c in batch ==> c.destPath != "" && PathLike(c.id) && c.uuid !in table
    ensures id in Upsert(env, known, table, batch) && Upsert(env, known, table, batch)[id].destPath == table[id].destPath
  {
    var result := Upsert(env, known, table, batch);
    UpsertOfApart(env, known, table, batch);
    if c :| c in batch && ResolvedId(known, c) == id {
      assert result[id] == Merged(table, RecordOf(env, known, c));
      assert c.destPath in known;
    } else {
      assert result[id] == table[id];
    }
  }

  /** A photo with a camera name is stored under the date and day in its name, whatever else the record says. */
  lemma CameraDateIsStored(
    dayOf: int -> Option<Day>, parse: string -> Option<Timestamp>, known: map<string, string>, c: Incoming,
    prefix: string, t: Timestamp, separator: char, extension: string)
    requires 1970 <= t.year <= 2099 && (separator == '-' || separator == '_')
    requires forall k :: 0 <= k < |prefix| ==> !IsDigit(prefix[k]) && prefix[k] != '/'
    requires |extension| >= 2 && extension[0] == '.' && '.' !in extension[1..] && '/' !in extension
    requires c.filename == prefix + Stamp(t, separator) + extension
    ensures var r := RecordOf(Host(dayOf, parse), known, c);
            r.captureDate == Some(t) && r.captureDay == Some(DayOfDateTime(t))
  {
    CameraNameIsRecovered(prefix, t, separator, extension);
    FilenameDateWins(Host(dayOf, parse), c.filename, c.dateText);
  }
}
