/** Batches in which several records resolve to one id: whether a known destination survives. */
module UpsertCollisions {
  import opened Dictionaries
  import opened Captures

  // ---- The order of the two dictionaries ----

  lemma {:induction false} PutReplaces<V>(d: Dict<V>, p: nat, key: string, value: V)
    requires p < |d| && d[p].0 == key && DistinctKeys(d)
    ensures Put(d, key, value) == d[p := (key, value)]
  {
    if p > 0 {
      var rest := d[1..];
      assert d[0].0 != d[p].0;
      assert forall i :: 0 <= i < |rest| ==> rest[i] == d[i + 1];
      PutReplaces(rest, p - 1, key, value);
      assert d == [d[0]] + rest;
    } else {
      assert [(key, value)] + d[1..] == d[0 := (key, value)];
    }
  }

  lemma PutPlaces<V>(d: Dict<V>, key: string, value: V) returns (p: nat)
    requires DistinctKeys(d)
    ensures p <= |d| && (p < |d| ==> d[p].0 == key && Put(d, key, value) == d[p := (key, value)])
    ensures p == |d| ==> !HasKey(d, key) && Put(d, key, value) == d + [(key, value)]
  {
    if HasKey(d, key) {
      p :| 0 <= p < |d| && d[p].0 == key;
      PutReplaces(d, p, key, value);
    } else {
      p := |d|;
      PutNewKeyAppends(d, key, value);
    }
  }

  /** The key occurs among the first `j` records. */
  predicate Occurs(rows: seq<Row>, key: string, j: nat)
    requires j <= |rows|
  {
    exists m :: 0 <= m < j && KeyOf(rows[m]) == key
  }

  /** Key `a` occurs before key `b` does. */
  ghost predicate Precedes(rows: seq<Row>, a: string, b: string) {
    forall j :: 0 <= j < |rows| && KeyOf(rows[j]) == b ==> Occurs(rows, a, j)
  }

  ghost predicate LastOfKey(rows: seq<Row>, i: nat)
    requires i < |rows|
  {
    forall j :: i < j < |rows| ==> KeyOf(rows[j]) != KeyOf(rows[i])
  }

  /** The entry holds the last record with its key. */
  ghost predicate HoldsLast(rows: seq<Row>, entry: (string, Row)) {
    exists i :: 0 <= i < |rows| && LastOfKey(rows, i) && entry == (KeyOf(rows[i]), rows[i])
  }

  ghost predicate Ordered(rows: seq<Row>, d: Dict<Row>) {
    && DistinctKeys(d)
    && (forall a :: 0 <= a < |d| ==> HoldsLast(rows, d[a]))
    && (forall a, b :: 0 <= a < b < |d| ==> Precedes(rows, d[a].0, d[b].0))
  }

  lemma OccursStays(rows: seq<Row>, r: Row, key: string, j: nat)
    requires j <= |rows|
    ensures Occurs(rows + [r], key, j) <==> Occurs(rows, key, j)
  {
    assert forall m :: 0 <= m < j ==> (rows + [r])[m] == rows[m];
  }

  lemma PrecedesStays(rows: seq<Row>, r: Row, a: string, b: string)
    requires Precedes(rows, a, b) && (KeyOf(r) == b ==> Occurs(rows, a, |rows|))
    ensures Precedes(rows + [r], a, b)
  {
    forall j | 0 <= j < |rows + [r]| && KeyOf((rows + [r])[j]) == b ensures Occurs(rows + [r], a, j) {
      OccursStays(rows, r, a, j);
    }
  }

  lemma HoldsLastStays(rows: seq<Row>, r: Row, entry: (string, Row))
    requires HoldsLast(rows, entry) && entry.0 != KeyOf(r)
    ensures HoldsLast(rows + [r], entry)
  {
    var i :| 0 <= i < |rows| && LastOfKey(rows, i) && entry == (KeyOf(rows[i]), rows[i]);
    var more := rows + [r];
    assert more[i] == rows[i];
    forall j | i < j < |more| ensures KeyOf(more[j]) != KeyOf(more[i]) {
      assert j < |rows| ==> more[j] == rows[j];
    }
  }

  lemma LastIsHeld(rows: seq<Row>, r: Row)
    ensures HoldsLast(rows + [r], (KeyOf(r), r))
  {
    var more := rows + [r];
    assert more[|rows|] == r && LastOfKey(more, |rows|);
  }

  lemma HeldOccurs(rows: seq<Row>, entry: (string, Row))
    requires HoldsLast(rows, entry)
    ensures Occurs(rows, entry.0, |rows|)
  {
    var i :| 0 <= i < |rows| && LastOfKey(rows, i) && entry == (KeyOf(rows[i]), rows[i]);
  }

  /** One more record in `records_by_key`. */
  lemma PutKeepsOrder(rows: seq<Row>, d: Dict<Row>, r: Row)
    requires Ordered(rows, d) && forall m :: 0 <= m < |rows| ==> HasKey(d, KeyOf(rows[m]))
    ensures Ordered(rows + [r], Put(d, KeyOf(r), r))
  {
    var p := PutPlaces(d, KeyOf(r), r);
    PutAddsOrReplaces(d, KeyOf(r), r);
    PlacedHoldsLast(rows, d, Put(d, KeyOf(r), r), r, p);
    PlacedKeepsPrecedence(rows, d, Put(d, KeyOf(r), r), r, p);
  }

  /** The entry at `p` is replaced, or added there at the end. */
  predicate PlacedAt(d: Dict<Row>, next: Dict<Row>, r: Row, p: nat) {
    && p < |next| && next[p] == (KeyOf(r), r) && (p < |d| ==> d[p].0 == KeyOf(r))
    && |next| == (if p < |d| then |d| else |d| + 1)
    && forall a :: 0 <= a < |next| && a != p ==> a < |d| && next[a] == d[a] && d[a].0 != KeyOf(r)
  }

  lemma PlacedHoldsLast(rows: seq<Row>, d: Dict<Row>, next: Dict<Row>, r: Row, p: nat)
    requires Ordered(rows, d) && PlacedAt(d, next, r, p)
    ensures forall a :: 0 <= a < |next| ==> HoldsLast(rows + [r], next[a])
  {
    LastIsHeld(rows, r);
    forall a | 0 <= a < |next| ensures HoldsLast(rows + [r], next[a]) {
      if a != p {
        HoldsLastStays(rows, r, d[a]);
      }
    }
  }

  lemma PlacedKeepsPrecedence(rows: seq<Row>, d: Dict<Row>, next: Dict<Row>, r: Row, p: nat)
    requires Ordered(rows, d) && PlacedAt(d, next, r, p) && forall m :: 0 <= m < |rows| ==> HasKey(d, KeyOf(rows[m]))
    ensures forall a, b :: 0 <= a < b < |next| ==> Precedes(rows + [r], next[a].0, next[b].0)
  {
    forall a, b | 0 <= a < b < |next| ensures Precedes(rows + [r], next[a].0, next[b].0) {
      HeldOccurs(rows, d[a]);
      if b == |d| {
        assert forall j :: 0 <= j < |rows| ==> KeyOf(rows[j]) != KeyOf(r);
        assert Precedes(rows, d[a].0, KeyOf(r));
      }
      PrecedesStays(rows, r, next[a].0, next[b].0);
    }
  }

  lemma {:induction false} ByKeyIsOrdered(rows: seq<Row>)
    ensures Ordered(rows, ByKey(rows))
  {
    if rows != [] {
      var init, last := rows[..|rows| - 1], rows[|rows| - 1];
      ByKeyIsOrdered(init);
      ByKeyKeeps(init);
      assert forall m :: 0 <= m < |init| ==> init[m] in init;
      PutKeepsOrder(init, ByKey(init), last);
      assert rows == init + [last];
    }
  }

  ghost predicate LastWithId(values: seq<Row>, q: nat, id: string) {
    q < |values| && values[q].id == id && forall j :: q < j < |values| ==> values[j].id != id
  }

  /** The second dictionary holds the last value of each id. */
  lemma {:induction false} ByIdHoldsLast(values: seq<Row>, q: nat, id: string)
    requires LastWithId(values, q, id)
    ensures (id, values[q]) in ById(values)
  {
    var n := |values| - 1;
    ByIdKeeps(values[..n]);
    PutAddsOrReplaces(ById(values[..n]), values[n].id, values[n]);
    if q < n {
      assert values[n].id != id;
      ByIdHoldsLast(values[..n], q, id);
    }
  }

  lemma {:induction false} NotBothPrecede(rows: seq<Row>, a: string, b: string, j: nat)
    requires Precedes(rows, a, b) && Precedes(rows, b, a) && j <= |rows|
    ensures !Occurs(rows, a, j) && !Occurs(rows, b, j)
    decreases j
  {
    if j > 0 {
      NotBothPrecede(rows, a, b, j - 1);
    }
  }

  // ---- When a known destination survives ----

  /** Record `i` is the last with its key, has the id of destination `d`, and its key first occurs after `d`. */
  ghost predicate Overtakes(rows: seq<Row>, i: nat, d: string, id: string) {
    i < |rows| && rows[i].id == id && KeyOf(rows[i]) != d && LastOfKey(rows, i) && Precedes(rows, d, KeyOf(rows[i]))
  }

  ghost predicate Overtaken(rows: seq<Row>, d: string, id: string) {
    exists i: nat :: Overtakes(rows, i, d, id)
  }

  lemma KeyPosition(rows: seq<Row>, r: Row) returns (p: nat)
    requires r in rows
    ensures p < |ByKey(rows)| && ByKey(rows)[p].0 == KeyOf(r)
  {
    ByKeyKeeps(rows);
    p :| 0 <= p < |ByKey(rows)| && ByKey(rows)[p].0 == KeyOf(r);
  }

  lemma LaterEntryOvertakes(rows: seq<Row>, p: nat, q: nat, id: string)
    requires p < q < |ByKey(rows)| && ByKey(rows)[q].1.id == id
    ensures Overtaken(rows, ByKey(rows)[p].0, id)
  {
    var dict := ByKey(rows);
    ByKeyIsOrdered(rows);
    assert HoldsLast(rows, dict[q]);
    var i: nat :| i < |rows| && LastOfKey(rows, i) && dict[q] == (KeyOf(rows[i]), rows[i]);
    assert dict[p].0 != dict[q].0;
    assert Overtakes(rows, i, dict[p].0, id);
  }

  lemma OvertakingEntryIsLater(rows: seq<Row>, p: nat, i: nat, id: string) returns (q: nat)
    requires p < |ByKey(rows)| && Overtakes(rows, i, ByKey(rows)[p].0, id)
    ensures p < q < |ByKey(rows)| && ByKey(rows)[q].1.id == id
  {
    var dict := ByKey(rows);
    ByKeyIsOrdered(rows);
    assert rows[i] in rows;
    q := KeyPosition(rows, rows[i]);
    assert HoldsLast(rows, dict[q]);
    var m :| 0 <= m < |rows| && LastOfKey(rows, m) && dict[q] == (KeyOf(rows[m]), rows[m]);
    assert m == i;
    HeldOccurs(rows, dict[q]);
    if q < p {
      NotBothPrecede(rows, dict[q].0, dict[p].0, |rows|);
    }
  }

  /** The entry of `d` is the last one with its id if and only if no record overtakes it. */
  lemma LastIffNotOvertaken(rows: seq<Row>, p: nat, d: string, id: string)
    requires p < |ByKey(rows)| && ByKey(rows)[p].0 == d && ByKey(rows)[p].1.id == id
    ensures LastWithId(Values(ByKey(rows)), p, id) <==> !Overtaken(rows, d, id)
  {
    var values := Values(ByKey(rows));
    if q :| p < q < |values| && values[q].id == id {
      LaterEntryOvertakes(rows, p, q, id);
    }
    if i: nat :| Overtakes(rows, i, d, id) {
      var q := OvertakingEntryIsLater(rows, p, i, id);
      assert values[q].id == id;
    }
  }

  lemma SomeLast(values: seq<Row>, p: nat, id: string) returns (q: nat)
    requires p < |values| && values[p].id == id
    ensures p <= q && LastWithId(values, q, id)
  {
    q := p;
    for j := p + 1 to |values|
      invariant p <= q < j && values[q].id == id
      invariant forall m :: q < m < j ==> values[m].id != id
    {
      if values[j].id == id {
        q := j;
      }
    }
  }

  /** The record that is stored under the id of a known destination of the batch. */
  lemma StoredUnder(rows: seq<Row>, p: nat, d: string, id: string) returns (r: Row)
    requires d != "" && p < |ByKey(rows)| && ByKey(rows)[p].0 == d && ByKey(rows)[p].1.id == id
    requires forall e :: e in rows && KeyOf(e) == d ==> e.destPath == d
    ensures r in Values(ById(Values(ByKey(rows)))) && r.id == id
    ensures r.destPath == d <==> LastWithId(Values(ByKey(rows)), p, id)
  {
    var dict, values := ByKey(rows), Values(ByKey(rows));
    ByKeyIsOrdered(rows);
    ByKeyKeeps(rows);
    var q := SomeLast(values, p, id);
    ByIdHoldsLast(values, q, id);
    EntryHasValue(ById(values), (id, values[q]));
    r := values[q];
    assert dict[q] in dict && dict[p] in dict;
    assert dict[q].0 == d ==> q == p;
  }

  /** No record without a destination has this destination for its id. */
  ghost predicate NoIdIs(known: map<string, string>, batch: seq<Incoming>, d: string) {
    forall c :: c in batch && c.destPath == "" ==> ResolvedId(known, c) != d
  }

  /**
   A known destination of a batch is still in the table afterwards if and only if no other record of the batch overtakes
   it: one that resolves to the same id, and whose key first occurs after it.
   */
  lemma KnownDestinationStaysIff(env: Env, known: map<string, string>, table: Table, batch: seq<Incoming>, d: string)
    requires WellKeyed(table) && UniqueDestinations(table) && KnownFor(table, known, Wanted(batch)) && d in known
    requires NoIdIs(known, batch, d)
    ensures d in Destinations(Upsert(env, known, table, batch)) <==> !Overtaken(Normalized(env, known, batch), d, known[d])
  {
    var rows, id := Normalized(env, known, batch), known[d];
    var result := Upsert(env, known, table, batch);
    var c :| c in batch && c.destPath == d;
    var mine := RecordOf(env, known, c);
    RecordIsNormalized(env, known, batch, c);
    KeysOfDestination(env, known, batch, d);
    var p := KeyPosition(rows, mine);
    ByKeyKeeps(rows);
    assert ByKey(rows)[p] in ByKey(rows);
    LastIffNotOvertaken(rows, p, d, id);
    var r := StoredUnder(rows, p, d, id);
    RecordsAreDeduplicated(env, known, batch);
    ApplyAllWrites(table, Records(env, known, batch));
    assert result[id].destPath == r.destPath;
    UpsertPreserves(env, known, table, batch);
    assert d in Destinations(result) <==> result[id].destPath == d by {
      if d in Destinations(result) {
        var other :| other in result && result[other].destPath == d;
        assert other == id;
      }
    }
  }

  lemma RecordIsNormalized(env: Env, known: map<string, string>, batch: seq<Incoming>, c: Incoming)
    requires c in batch
    ensures RecordOf(env, known, c) in Normalized(env, known, batch)
  {
    var i :| 0 <= i < |batch| && batch[i] == c;
    assert Normalized(env, known, batch)[i] == RecordOf(env, known, c);
  }

  lemma KeysOfDestination(env: Env, known: map<string, string>, batch: seq<Incoming>, d: string)
    requires d in known && NoIdIs(known, batch, d)
    ensures forall e :: e in Normalized(env, known, batch) && KeyOf(e) == d ==> e.destPath == d && e.id == known[d]
  {
    var rows := Normalized(env, known, batch);
    forall e | e in rows && KeyOf(e) == d ensures e.destPath == d && e.id == known[d] {
      var i :| 0 <= i < |rows| && rows[i] == e;
      assert e == RecordOf(env, known, batch[i]) && batch[i] in batch;
    }
  }

  /** For one, a later record for a new destination that carries the id of the row takes the row away from `d`. */
  lemma LaterRecordTakesTheRow(env: Env, known: map<string, string>, table: Table, x: Incoming, y: Incoming)
    requires WellKeyed(table) && UniqueDestinations(table) && KnownFor(table, known, Wanted([x, y])) && x.destPath in known
    requires y.destPath != "" && y.destPath !in known && y.id == known[x.destPath] && !NeedsNewId(y.id)
    ensures x.destPath in Destinations(table) && x.destPath !in Destinations(Upsert(env, known, table, [x, y]))
  {
    var rows := Normalized(env, known, [x, y]);
    assert table[known[x.destPath]].destPath == x.destPath;
    assert x.destPath in Wanted([x, y]);
    assert KeyOf(rows[0]) == x.destPath && KeyOf(rows[1]) == y.destPath != x.destPath;
    assert Precedes(rows, x.destPath, y.destPath) by {
      assert Occurs(rows, x.destPath, 1);
    }
    assert Overtakes(rows, 1, x.destPath, known[x.destPath]);
    KnownDestinationStaysIff(env, known, table, [x, y], x.destPath);
  }

  // ---- Several records for one destination ----

  lemma {:induction false} OneKeyHoldsLast(rows: seq<Row>, key: string)
    requires rows != [] && forall r :: r in rows ==> KeyOf(r) == key
    ensures ByKey(rows) == [(key, rows[|rows| - 1])]
  {
    var n := |rows| - 1;
    if n > 0 {
      OneKeyHoldsLast(rows[..n], key);
      assert rows[n] in rows;
    } else {
      assert rows[..n] == [] && rows[n] in rows;
    }
  }

  lemma OneRowRemains(rows: seq<Row>, key: string)
    requires rows != [] && forall r :: r in rows ==> KeyOf(r) == key
    ensures Values(ById(Values(ByKey(rows)))) == [rows[|rows| - 1]]
  {
    var last := rows[|rows| - 1];
    OneKeyHoldsLast(rows, key);
    var values := Values(ByKey(rows));
    assert values == [last] && values[..0] == [];
    assert ById(values) == [(last.id, last)];
  }

  /** Of several records for one destination only the last counts, whatever their ids. */
  lemma LastForDestinationCounts(env: Env, known: map<string, string>, table: Table, batch: seq<Incoming>, d: string)
    requires batch != [] && d != "" && forall c :: c in batch ==> c.destPath == d
    ensures Upsert(env, known, table, batch) == Upsert(env, known, table, [batch[|batch| - 1]])
  {
    OneRecordRemains(env, known, batch, d);
    OneRecordRemains(env, known, [batch[|batch| - 1]], d);
  }

  lemma OneRecordRemains(env: Env, known: map<string, string>, batch: seq<Incoming>, d: string)
    requires batch != [] && d != "" && forall c :: c in batch ==> c.destPath == d
    ensures Records(env, known, batch) == [RecordOf(env, known, batch[|batch| - 1])]
  {
    NormalizedKeys(env, known, batch, d);
    OneRowRemains(Normalized(env, known, batch), d);
  }

  lemma NormalizedKeys(env: Env, known: map<string, string>, batch: seq<Incoming>, d: string)
    requires d != "" && forall c :: c in batch ==> c.destPath == d
    ensures forall r :: r in Normalized(env, known, batch) ==> KeyOf(r) == d
  {
    var rows := Normalized(env, known, batch);
    forall r | r in rows ensures KeyOf(r) == d {
      var i :| 0 <= i < |rows| && rows[i] == r;
      assert batch[i] in batch;
    }
  }
}
