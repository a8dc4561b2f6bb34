/** What an upsert stores of a record, column by column. */
module CaptureColumns {
  import opened Text
  import opened Dates
  import opened Captures

  /** The id of the destination's row if it has one; otherwise the given id, or a new one where that is empty or a path. */
  predicate TakesId(known: map<string, string>, c: Incoming, id: string) {
    if c.destPath in known then id == known[c.destPath]
    else if c.id == "" then id == c.uuid
    else if c.id[0] == '/' || c.id[0] == '\\' || (|c.id| >= 2 && c.id[0] == 'C' && c.id[1] == ':') then id == c.uuid
    else id == c.id
  }

  lemma TakesIdIff(known: map<string, string>, c: Incoming, id: string)
    ensures ResolvedId(known, c) == id <==> TakesId(known, c, id)
  {
    if c.id != "" {
      StartsWithChar("/", c.id);
      StartsWithChar("\\", c.id);
      StartsWithDrive(c.id);
    }
  }

  lemma StartsWithChar(s: string, t: string)
    requires |s| == 1 && t != ""
    ensures s <= t <==> t[0] == s[0]
  {
    assert t[..1] == [t[0]];
  }

  lemma StartsWithDrive(t: string)
    ensures "C:" <= t <==> |t| >= 2 && t[0] == 'C' && t[1] == ':'
  {
  }

  /** The date of a record: the one in its name if there is one, otherwise the one it brings, if any. */
  lemma DateOfRecord(env: Env, name: string, dateText: string, t: Timestamp)
    ensures env.filenameDate(name) == Some(t) ==> CaptureDate(env, name, dateText) == Some(t)
    ensures env.filenameDate(name) == None && dateText == IsoText(t) ==> CaptureDate(env, name, dateText) == Some(t)
    ensures env.filenameDate(name) == None && dateText == "" ==> CaptureDate(env, name, dateText) == None
  {
    IsoTextRoundTrips(t, env.parse);
  }

  /** The day is that of the date; without a date it is that of a positive modification time; else there is none. */
  predicate TakesDay(env: Env, date: Option<Timestamp>, mtime: int, day: Option<Day>) {
    match date
    case Some(t) => day == Some(Day(t.year, t.month, t.day))
    case None => if mtime > 0 then day == env.dayOf(mtime) else day == None
  }

  /** The columns come from the record, but that a row that is there keeps its favourite flag. */
  predicate TakesColumns(r: Row, c: Incoming) {
    r.filename == c.filename && r.mtime == c.mtime && r.sourcePath == c.sourcePath && r.destPath == c.destPath && r.details == c.details
  }

  /** In a batch whose records stay apart, each is stored with its columns, date and day under its id; other rows stay. */
  lemma BatchIsStored(env: Env, known: map<string, string>, table: Table, batch: seq<Incoming>, c: Incoming, id: string)
    requires Apart(known, batch) && c in batch && TakesId(known, c, id)
    ensures var after := Upsert(env, known, table, batch);
            && id in after && after[id].id == id && TakesColumns(after[id], c)
            && after[id].captureDate == CaptureDate(env, c.filename, c.dateText)
            && TakesDay(env, after[id].captureDate, c.mtime, after[id].captureDay)
            && (after[id].favourite <==> id in table && table[id].favourite)
  {
    TakesIdIff(known, c, id);
    UpsertOfApart(env, known, table, batch);
  }

  /** In particular an undated record under a plain name, whatever the file system says of its age. */
  lemma UndatedIsStored(env: Env, known: map<string, string>, table: Table, batch: seq<Incoming>, c: Incoming, id: string)
    requires Apart(known, batch) && c in batch && TakesId(known, c, id)
    requires env.filenameDate(c.filename) == None && c.dateText == ""
    ensures var after := Upsert(env, known, table, batch);
            && id in after && after[id].captureDate == None
            && after[id].captureDay == (if c.mtime > 0 then env.dayOf(c.mtime) else None)
  {
    BatchIsStored(env, known, table, batch, c, id);
  }

  /** And a record that brings a date which its name does not have. */
  lemma DatedIsStored(env: Env, known: map<string, string>, table: Table, batch: seq<Incoming>, c: Incoming, id: string, t: Timestamp)
    requires Apart(known, batch) && c in batch && TakesId(known, c, id)
    requires env.filenameDate(c.filename) == Some(t) || (env.filenameDate(c.filename) == None && c.dateText == IsoText(t))
    ensures var after := Upsert(env, known, table, batch);
            && id in after && after[id].captureDate == Some(t)
            && after[id].captureDay == Some(Day(t.year, t.month, t.day))
  {
    DateOfRecord(env, c.filename, c.dateText, t);
    BatchIsStored(env, known, table, batch, c, id);
  }

  /** The text in which dates are exchanged, spelled out. */
  lemma IsoTextIs(t: DateTime)
    requires IsCalendar(t)
    ensures var s := IsoText(t);
            && |s| == 19 && s[4] == '-' && s[7] == '-' && s[10] == 'T' && s[13] == ':' && s[16] == ':'
            && Num4(s, 0) == t.year && Num2(s, 5) == t.month && Num2(s, 8) == t.day
            && Num2(s, 11) == t.hour && Num2(s, 14) == t.minute && Num2(s, 17) == t.second
  {
    TextReads(t, 'T');
  }

  lemma DigitsAreDecimal(s: string)
    requires |s| == 4
    ensures Num4(s, 0) == 1000 * (s[0] as int - 48) + 100 * (s[1] as int - 48) + 10 * (s[2] as int - 48) + (s[3] as int - 48)
    ensures Num2(s, 2) == 10 * (s[2] as int - 48) + (s[3] as int - 48)
    ensures forall c :: IsDigit(c) <==> c in "0123456789"
  {
    var digits := "0123456789";
    forall c ensures IsDigit(c) <==> c in digits {
      if IsDigit(c) {
        assert digits[c as int - 48] == c;
      }
    }
  }
}
