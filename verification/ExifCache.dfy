/** Classification with the incremental EXIF scan: stored extraction results are reused for unchanged files. */
module ExifCache {
  import opened Text

  type Content = string

  datatype File = File(mtime: int, content: Content)
  type Disk = map<string, File>

  /** The rows of `photo_exif`, by capture id. */
  type Cache = map<string, Record>

  datatype Gps = Gps(lat: int, lon: int)

  /** What an extraction yields about the image itself; `rawGps` is the GPS block of the raw data, if it has one. */
  datatype Metadata = Metadata(
    hasExif: bool,
    rawIsEmpty: bool,
    gps: Option<Gps>,
    rawGps: Option<Option<Gps>>,
    hasCamera: bool,
    size: Option<(int, int)>,
    dateTaken: string)

  /** One row of `photo_exif`; `error` is "" where the column is NULL. */
  datatype Record = Record(path: string, mtime: int, extractedAt: int, metadata: Metadata, error: string)

  datatype Capture = Capture(
    id: string,
    filename: string,
    extension: string,
    sourcePath: string,
    destPath: Option<string>,
    sshRemotePath: Option<string>,
    captureDate: string,
    gps: Option<Gps>,
    tags: set<string>)

  /** The rule tables, and the decoding of images, which is the same for the same bytes. */
  datatype Rules = Rules(
    filenameTags: string -> set<string>,
    pathTags: string -> set<string>,
    isScreenSize: (int, int) -> bool,
    exifDate: string -> Option<string>,
    decode: Content -> (Metadata, string))

  const NOTHING := Metadata(false, true, None, None, false, None, "")
  const NOT_FOUND := "File not found"
  const SSH := "ssh://"

  function WithSlashes(s: string): string {
    seq(|s|, i requires 0 <= i < |s| => if s[i] == '\\' then '/' else s[i])
  }

  function HasDest(c: Capture): bool {
    c.destPath.Some? && c.destPath.value != ""
  }

  /** The file that the metadata of a capture is read from. */
  function LocalPath(c: Capture): string {
    if HasDest(c) then c.destPath.value
    else if SSH <= c.sourcePath then c.sourcePath[|SSH|..]
    else WithSlashes(c.sourcePath)
  }

  /** `extract_photo_exif` */
  function Extract(rules: Rules, disk: Disk, path: string, now: int): Record {
    if path !in disk then Record(path, 0, now, NOTHING, NOT_FOUND)
    else
      var (metadata, error) := rules.decode(disk[path].content);
      Record(path, disk[path].mtime, now, metadata, error)
  }

  predicate Unchanged(disk: Disk, cache: Cache, c: Capture) {
    && c.id in cache && cache[c.id].error == "" && cache[c.id].path == LocalPath(c)
    && LocalPath(c) in disk && cache[c.id].mtime == disk[LocalPath(c)].mtime
  }

  // ---- Tags ----

  const VIDEO := {"mp4", "mov", "avi", "mkv", "3gp", "webm", "flv"}
  const WEB := {"webp", "avif"}

  function LStripDots(s: string): string {
    if s != "" && s[0] == '.' then LStripDots(s[1..]) else s
  }

  function ExtensionTags(extension: string): set<string> {
    var ext := LStripDots(Fold(extension));
    if ext == "gif" then {"gif"} else if ext in VIDEO then {"video"} else if ext in WEB then {"web_image"} else {}
  }

  function ShapeTags(rules: Rules, m: Metadata): set<string> {
    match m.size
    case None => {}
    case Some((w, h)) =>
      if w <= 0 || h <= 0 then {}
      else
        (if w >= 2 * h then {"panorama"} else if h > w then {"portrait"} else if w > h then {"landscape_photo"} else {})
        + (if rules.isScreenSize(w, h) && m.rawIsEmpty then {"screenshot"} else {})
  }

  function ImageTags(rules: Rules, m: Metadata): set<string> {
    (if !m.hasExif then {"no_exif"} else {})
    + (if m.gps.Some? || m.rawGps.Some? then {"has_gps"} else {})
    + (if m.hasCamera then {"camera"} else {})
    + ShapeTags(rules, m)
  }

  /** The file `classify_one` looks at has to exist, and a bare ssh source has none. */
  predicate IsLocal(disk: Disk, c: Capture) {
    if HasDest(c) then c.destPath.value in disk
    else !(SSH <= c.sourcePath) && WithSlashes(c.sourcePath) in disk
  }

  function PathChecked(c: Capture): string {
    WithSlashes(if c.sshRemotePath.Some? && c.sshRemotePath.value != "" then c.sshRemotePath.value else c.sourcePath)
  }

  function RuleTags(rules: Rules, disk: Disk, c: Capture, m: Metadata): set<string> {
    rules.filenameTags(c.filename) + rules.pathTags(PathChecked(c)) + ExtensionTags(c.extension)
    + (if IsLocal(disk, c) then ImageTags(rules, m) else {})
  }

  function Tagged(rules: Rules, disk: Disk, c: Capture, m: Metadata): set<string> {
    var tags := c.tags + RuleTags(rules, disk, c, m);
    if tags == {} then {"other"} else tags
  }

  function Located(disk: Disk, c: Capture, m: Metadata): Option<Gps> {
    if !IsLocal(disk, c) then c.gps
    else if m.gps.Some? then m.gps
    else if m.rawGps.Some? && m.rawGps.value.Some? then m.rawGps.value
    else c.gps
  }

  function Dated(rules: Rules, c: Capture, m: Metadata): string {
    var date := rules.exifDate(m.dateTaken);
    if c.captureDate == "" && date.Some? then date.value else c.captureDate
  }

  /** What classification makes of one capture, given its metadata. */
  function Classified(rules: Rules, disk: Disk, c: Capture, m: Metadata): Capture {
    c.(tags := Tagged(rules, disk, c, m), gps := Located(disk, c, m), captureDate := Dated(rules, c, m))
  }

  /** `classify_one`: the tags of a capture, and its position. */
  method ClassifyOne(rules: Rules, disk: Disk, c: Capture, m: Metadata) returns (tags: set<string>, gps: Option<Gps>)
    ensures tags == Tagged(rules, disk, c, m) && gps == Located(disk, c, m)
  {
    tags, gps := c.tags, c.gps;
    tags := tags + rules.filenameTags(c.filename);
    tags := tags + rules.pathTags(PathChecked(c));
    tags := tags + ExtensionTags(c.extension);
    if IsLocal(disk, c) {
      if !m.hasExif {
        tags := tags + {"no_exif"};
      }
      if m.gps.Some? {
        tags := tags + {"has_gps"};
        gps := m.gps;
      } else if m.rawGps.Some? {
        tags := tags + {"has_gps"};
        if m.rawGps.value.Some? {
          gps := m.rawGps.value;
        }
      }
      if m.hasCamera {
        tags := tags + {"camera"};
      }
      tags := tags + ShapeTags(rules, m);
      assert tags == c.tags + RuleTags(rules, disk, c, m);
    }
    if tags == {} {
      tags := {"other"};
    }
  }

  // ---- With and without the cache ----

  /** The record that the scan uses for a capture. */
  function RecordFor(rules: Rules, disk: Disk, cache: Cache, c: Capture, now: int): Record {
    if Unchanged(disk, cache, c) then cache[c.id] else Extract(rules, disk, LocalPath(c), now)
  }

  /** The captures after a scan that reuses stored records. */
  function Scanned(rules: Rules, disk: Disk, cache: Cache, captures: seq<Capture>, now: int): seq<Capture> {
    seq(|captures|, i requires 0 <= i < |captures| =>
      Classified(rules, disk, captures[i], RecordFor(rules, disk, cache, captures[i], now).metadata))
  }

  /** The captures after a scan that reads every file. */
  function ScannedAfresh(rules: Rules, disk: Disk, captures: seq<Capture>, now: int): seq<Capture> {
    seq(|captures|, i requires 0 <= i < |captures| =>
      Classified(rules, disk, captures[i], Extract(rules, disk, LocalPath(captures[i]), now).metadata))
  }

  /** The captures whose files are read. */
  function Jobs(disk: Disk, cache: Cache, captures: seq<Capture>): seq<Capture> {
    if captures == [] then []
    else
      var before, c := Jobs(disk, cache, captures[..|captures| - 1]), captures[|captures| - 1];
      if Unchanged(disk, cache, c) then before else before + [c]
  }

  datatype Entry = Entry(captureId: string, record: Record)

  /** What the extraction pool returns for a list of captures. */
  function Extracted(rules: Rules, disk: Disk, jobs: seq<Capture>, now: int): seq<Entry> {
    seq(|jobs|, i requires 0 <= i < |jobs| => Entry(jobs[i].id, Extract(rules, disk, LocalPath(jobs[i]), now)))
  }

  /** `upsert_photo_exif` */
  function PutAll(cache: Cache, entries: seq<Entry>): Cache {
    if entries == [] then cache
    else
      var e := entries[|entries| - 1];
      PutAll(cache, entries[..|entries| - 1])[e.captureId := e.record]
  }

  /** The stored records after the files of `jobs` have been read. */
  function Stored(rules: Rules, disk: Disk, cache: Cache, jobs: seq<Capture>, now: int): Cache {
    PutAll(cache, Extracted(rules, disk, jobs, now))
  }

  predicate DistinctIds(captures: seq<Capture>) {
    forall i, j :: 0 <= i < j < |captures| ==> captures[i].id != captures[j].id
  }

  class Catalogue {
    var captures: seq<Capture>
    var cache: Cache

    constructor (captures: seq<Capture>)
      ensures this.captures == captures && cache == map[]
    {
      this.captures, cache := captures, map[];
    }

    /** The loop that separates the captures to reuse from those to read. */
    method Separate(disk: Disk) returns (metadata: Cache, jobs: seq<Capture>)
      requires DistinctIds(captures)
      ensures jobs == Jobs(disk, cache, captures)
      ensures forall c: Capture | c in captures && Unchanged(disk, cache, c) :: c.id in metadata && metadata[c.id] == cache[c.id]
    {
      metadata, jobs := map[], [];
      for k := 0 to |captures|
        invariant jobs == Jobs(disk, cache, captures[..k])
        invariant forall i | 0 <= i < k && Unchanged(disk, cache, captures[i]) ::
                    captures[i].id in metadata && metadata[captures[i].id] == cache[captures[i].id]
      {
        assert captures[..k + 1][..k] == captures[..k];
        if Unchanged(disk, cache, captures[k]) {
          metadata := metadata[captures[k].id := cache[captures[k].id]];
        } else {
          jobs := jobs + [captures[k]];
        }
      }
      assert captures[..|captures|] == captures;
    }

    /** `classify_captures` */
    method ClassifyCaptures(rules: Rules, disk: Disk, now: int) returns (jobs: seq<Capture>)
      requires DistinctIds(captures)
      modifies this
      ensures jobs == Jobs(disk, old(cache), old(captures))
      ensures captures == Scanned(rules, disk, old(cache), old(captures), now)
      ensures cache == Stored(rules, disk, old(cache), jobs, now)
    {
      var metadata;
      metadata, jobs := Separate(disk);
      var extracted := ReadFiles(rules, disk, jobs, now);
      ghost var reused := metadata;
      metadata := StoreEntries(metadata, extracted);
      forall c: Capture | c in captures
        ensures c.id in metadata && metadata[c.id] == RecordFor(rules, disk, cache, c, now)
      {
        MetadataIsComplete(rules, disk, cache, captures, reused, c, now);
      }
      TagAll(rules, disk, metadata, now);
      cache := StoreEntries(cache, extracted);
    }

    /** The loop that tags every capture. */
    method TagAll(rules: Rules, disk: Disk, metadata: Cache, now: int)
      requires forall c: Capture | c in captures :: c.id in metadata && metadata[c.id] == RecordFor(rules, disk, cache, c, now)
      modifies this`captures
      ensures captures == Scanned(rules, disk, cache, old(captures), now)
    {
      ghost var was, result := captures, Scanned(rules, disk, cache, captures, now);
      for k := 0 to |captures|
        invariant |captures| == |was|
        invariant forall i :: 0 <= i < k ==> captures[i] == result[i]
        invariant forall i :: k <= i < |was| ==> captures[i] == was[i]
      {
        var c := captures[k];
        assert c in was;
        c := Retag(rules, disk, c, metadata[c.id].metadata);
        captures := captures[k := c];
      }
    }
  }

  /** One round of the tagging loop. */
  method Retag(rules: Rules, disk: Disk, c: Capture, m: Metadata) returns (r: Capture)
    ensures r == Classified(rules, disk, c, m)
  {
    var tags, gps := ClassifyOne(rules, disk, c, m);
    r := c.(tags := tags, gps := gps);
    var exifDate := rules.exifDate(m.dateTaken);
    if r.captureDate == "" && exifDate.Some? {
      r := r.(captureDate := exifDate.value);
    }
  }

  /** The results of the extraction pool, in the order of the jobs. */
  method ReadFiles(rules: Rules, disk: Disk, jobs: seq<Capture>, now: int) returns (extracted: seq<Entry>)
    ensures extracted == Extracted(rules, disk, jobs, now)
  {
    extracted := [];
    for k := 0 to |jobs|
      invariant extracted == Extracted(rules, disk, jobs, now)[..k]
    {
      extracted := extracted + [Entry(jobs[k].id, Extract(rules, disk, LocalPath(jobs[k]), now))];
    }
  }

  method StoreEntries(cache: Cache, entries: seq<Entry>) returns (r: Cache)
    ensures r == PutAll(cache, entries)
  {
    r := cache;
    for k := 0 to |entries|
      invariant r == PutAll(cache, entries[..k])
    {
      assert entries[..k + 1][..k] == entries[..k];
      r := r[entries[k].captureId := entries[k].record];
    }
    assert entries[..|entries|] == entries;
  }

  ghost predicate DistinctKeys(entries: seq<Entry>) {
    forall i, j :: 0 <= i < j < |entries| ==> entries[i].captureId != entries[j].captureId
  }

  predicate Holds(entries: seq<Entry>, id: string) {
    exists i :: 0 <= i < |entries| && entries[i].captureId == id
  }

  lemma {:induction false} PutAllPuts(cache: Cache, entries: seq<Entry>)
    requires DistinctKeys(entries)
    ensures forall i :: 0 <= i < |entries| ==>
              entries[i].captureId in PutAll(cache, entries) && PutAll(cache, entries)[entries[i].captureId] == entries[i].record
    ensures forall id :: !Holds(entries, id) ==>
              (id in PutAll(cache, entries) <==> id in cache) && (id in cache ==> PutAll(cache, entries)[id] == cache[id])
  {
    if entries != [] {
      var init := entries[..|entries| - 1];
      PutAllPuts(cache, init);
      forall id | !Holds(entries, id) ensures !Holds(init, id) && id != entries[|init|].captureId {
        assert entries[|init|].captureId == id ==> Holds(entries, id);
      }
    }
  }

  /** After a scan's reading, its capture has the new record if it was read and the earlier one if not. */
  lemma MetadataIsComplete(
    rules: Rules, disk: Disk, cache: Cache, captures: seq<Capture>, reused: Cache, c: Capture, now: int)
    requires DistinctIds(captures) && c in captures
    requires Unchanged(disk, cache, c) ==> c.id in reused && reused[c.id] == cache[c.id]
    ensures var after := Stored(rules, disk, reused, Jobs(disk, cache, captures), now);
            c.id in after && after[c.id] == RecordFor(rules, disk, cache, c, now)
  {
    var jobs := Jobs(disk, cache, captures);
    var entries := Extracted(rules, disk, jobs, now);
    JobsAre(disk, cache, captures);
    PutAllPuts(reused, entries);
    assert forall i :: 0 <= i < |jobs| ==> jobs[i] in jobs;
    if !Unchanged(disk, cache, c) {
      var i :| 0 <= i < |jobs| && jobs[i] == c;
      assert entries[i] == Entry(c.id, Extract(rules, disk, LocalPath(c), now));
    }
  }

  /** Exactly the changed captures are read, each once. */
  lemma {:induction false} JobsAre(disk: Disk, cache: Cache, captures: seq<Capture>)
    requires DistinctIds(captures)
    ensures forall c :: c in Jobs(disk, cache, captures) <==> c in captures && !Unchanged(disk, cache, c)
    ensures DistinctIds(Jobs(disk, cache, captures))
  {
    if captures != [] {
      var init, last := captures[..|captures| - 1], captures[|captures| - 1];
      assert captures == init + [last];
      JobsAre(disk, cache, init);
      forall c | c in init ensures c.id != last.id {
      }
    }
  }

  // ---- Reuse is invisible ----

  /** Which content a path has at a modification time, if the two determine it. */
  type History = (string, int) -> Content

  ghost predicate Follows(at: History, disk: Disk) {
    forall path :: path in disk ==> disk[path].content == at(path, disk[path].mtime)
  }

  /** Every stored record without an error is what its recorded path holds at its recorded time. */
  ghost predicate Correct(rules: Rules, at: History, cache: Cache) {
    forall id :: id in cache && cache[id].error == "" ==> (cache[id].metadata, "") == rules.decode(at(cache[id].path, cache[id].mtime))
  }

  lemma ReuseIsExact(rules: Rules, at: History, disk: Disk, cache: Cache, c: Capture, now: int)
    requires Follows(at, disk) && Correct(rules, at, cache)
    ensures RecordFor(rules, disk, cache, c, now).(extractedAt := now) == Extract(rules, disk, LocalPath(c), now)
  {
    if Unchanged(disk, cache, c) {
      assert rules.decode(disk[LocalPath(c)].content) == (cache[c.id].metadata, "");
    }
  }

  lemma ScansAgree(rules: Rules, at: History, disk: Disk, cache: Cache, captures: seq<Capture>, now: int)
    requires Follows(at, disk) && Correct(rules, at, cache)
    ensures Scanned(rules, disk, cache, captures, now) == ScannedAfresh(rules, disk, captures, now)
  {
    forall i | 0 <= i < |captures|
      ensures RecordFor(rules, disk, cache, captures[i], now).metadata == Extract(rules, disk, LocalPath(captures[i]), now).metadata
    {
      ReuseIsExact(rules, at, disk, cache, captures[i], now);
    }
  }

  lemma {:induction false} PutAllKeepsCorrect(rules: Rules, at: History, cache: Cache, entries: seq<Entry>)
    requires Correct(rules, at, cache)
    requires forall e :: e in entries && e.record.error == "" ==>
               (e.record.metadata, "") == rules.decode(at(e.record.path, e.record.mtime))
    ensures Correct(rules, at, PutAll(cache, entries))
  {
    if entries != [] {
      PutAllKeepsCorrect(rules, at, cache, entries[..|entries| - 1]);
    }
  }

  lemma StoredIsCorrect(rules: Rules, at: History, disk: Disk, cache: Cache, jobs: seq<Capture>, now: int)
    requires Follows(at, disk) && Correct(rules, at, cache)
    ensures Correct(rules, at, Stored(rules, disk, cache, jobs, now))
  {
    PutAllKeepsCorrect(rules, at, cache, Extracted(rules, disk, jobs, now));
  }

  /** What happens between and during scans. `Recapture` is any change of the capture table that keeps ids distinct. */
  datatype Event =
    | Edit(disk: Disk)
    | Recapture(captures: seq<Capture>)
    | Forget(ids: set<string>)
    | Classify(now: int)

  datatype World = World(disk: Disk, captures: seq<Capture>, cache: Cache)

  function After(rules: Rules, w: World, e: Event): World {
    match e
    case Edit(disk) => w.(disk := disk)
    case Recapture(captures) => w.(captures := captures)
    case Forget(ids) => w.(cache := w.cache - ids)
    case Classify(now) =>
      w.(captures := Scanned(rules, w.disk, w.cache, w.captures, now),
         cache := Stored(rules, w.disk, w.cache, Jobs(w.disk, w.cache, w.captures), now))
  }

  function AfterAll(rules: Rules, w: World, events: seq<Event>): World {
    if events == [] then w
    else After(rules, AfterAll(rules, w, events[..|events| - 1]), events[|events| - 1])
  }

  /** The same history with every file read in every scan. */
  function AfterAllAfresh(rules: Rules, w: World, events: seq<Event>): World {
    if events == [] then w
    else
      var before, e := AfterAllAfresh(rules, w, events[..|events| - 1]), events[|events| - 1];
      if e.Classify? then before.(captures := ScannedAfresh(rules, before.disk, before.captures, e.now))
      else After(rules, before, e)
  }

  ghost predicate EditsFollow(at: History, events: seq<Event>) {
    forall e: Event :: e in events && e.Edit? ==> Follows(at, e.disk)
  }

  /** Over any history in which path and time determine content, nobody can tell that records are reused. */
  lemma {:induction false} ReuseIsInvisible(rules: Rules, at: History, w: World, events: seq<Event>)
    requires Follows(at, w.disk) && w.cache == map[] && EditsFollow(at, events)
    ensures AfterAll(rules, w, events).captures == AfterAllAfresh(rules, w, events).captures
    ensures AfterAll(rules, w, events).disk == AfterAllAfresh(rules, w, events).disk
    ensures Follows(at, AfterAll(rules, w, events).disk)
    ensures Correct(rules, at, AfterAll(rules, w, events).cache)
  {
    if events != [] {
      var init, e := events[..|events| - 1], events[|events| - 1];
      assert forall x: Event :: x in init ==> x in events;
      ReuseIsInvisible(rules, at, w, init);
      var before := AfterAll(rules, w, init);
      assert e in events;
      if e.Classify? {
        ScansAgree(rules, at, before.disk, before.cache, before.captures, e.now);
        StoredIsCorrect(rules, at, before.disk, before.cache, Jobs(before.disk, before.cache, before.captures), e.now);
      }
    }
  }

  // ---- Scanning twice ----

  /** A second scan of unchanged files reads only those whose extraction fails, and changes no capture. */
  lemma SecondScanOnlyRetriesFailures(rules: Rules, at: History, w: World, now: int, later: int)
    requires Follows(at, w.disk) && Correct(rules, at, w.cache) && DistinctIds(w.captures)
    ensures var once := After(rules, w, Classify(now));
            && (forall c :: c in Jobs(once.disk, once.cache, once.captures) <==>
                            c in once.captures && Extract(rules, w.disk, LocalPath(c), later).error != "")
            && After(rules, once, Classify(later)).captures == once.captures
  {
    var once := After(rules, w, Classify(now));
    SecondScanReads(rules, at, w, now, later);
    JobsAre(once.disk, once.cache, once.captures);
    SecondScanChangesNothing(rules, at, w, now, later);
  }

  lemma SecondScanReads(rules: Rules, at: History, w: World, now: int, later: int)
    requires Follows(at, w.disk) && Correct(rules, at, w.cache) && DistinctIds(w.captures)
    ensures var once := After(rules, w, Classify(now));
            && DistinctIds(once.captures)
            && forall c: Capture :: c in once.captures ==>
                 (Unchanged(once.disk, once.cache, c) <==> Extract(rules, w.disk, LocalPath(c), later).error == "")
  {
    var once := After(rules, w, Classify(now));
    forall c: Capture | c in once.captures
      ensures Unchanged(once.disk, once.cache, c) <==> Extract(rules, w.disk, LocalPath(c), later).error == ""
    {
      var i :| 0 <= i < |once.captures| && once.captures[i] == c;
      RescanOf(rules, at, w, w.captures[i], c, now, later);
    }
  }

  lemma SecondScanChangesNothing(rules: Rules, at: History, w: World, now: int, later: int)
    requires Follows(at, w.disk) && Correct(rules, at, w.cache)
    ensures var once := After(rules, w, Classify(now));
            After(rules, once, Classify(later)).captures == once.captures
  {
    var once := After(rules, w, Classify(now));
    StoredIsCorrect(rules, at, w.disk, w.cache, Jobs(w.disk, w.cache, w.captures), now);
    ScansAgree(rules, at, w.disk, w.cache, w.captures, now);
    ScansAgree(rules, at, once.disk, once.cache, once.captures, later);
    ScanningAfreshTwice(rules, w.disk, w.captures, now, later);
  }

  lemma ScanningAfreshTwice(rules: Rules, disk: Disk, captures: seq<Capture>, now: int, later: int)
    ensures var once := ScannedAfresh(rules, disk, captures, now);
            ScannedAfresh(rules, disk, once, later) == once
  {
    var once := ScannedAfresh(rules, disk, captures, now);
    forall i | 0 <= i < |captures| ensures ScannedAfresh(rules, disk, once, later)[i] == once[i] {
      ClassifyingTwice(rules, disk, captures[i], Extract(rules, disk, LocalPath(captures[i]), now).metadata);
    }
  }

  /** A stored record is reused by the next scan unless it has an error. */
  lemma RescanOf(rules: Rules, at: History, w: World, c: Capture, again: Capture, now: int, later: int)
    requires Follows(at, w.disk) && Correct(rules, at, w.cache) && DistinctIds(w.captures) && c in w.captures
    requires again.id == c.id && LocalPath(again) == LocalPath(c)
    ensures Unchanged(w.disk, Stored(rules, w.disk, w.cache, Jobs(w.disk, w.cache, w.captures), now), again)
            <==> Extract(rules, w.disk, LocalPath(again), later).error == ""
  {
    MetadataIsComplete(rules, w.disk, w.cache, w.captures, w.cache, c, now);
    ReuseIsExact(rules, at, w.disk, w.cache, c, now);
  }

  lemma ClassifyingTwice(rules: Rules, disk: Disk, c: Capture, m: Metadata)
    ensures Classified(rules, disk, Classified(rules, disk, c, m), m) == Classified(rules, disk, c, m)
  {
    var once := Classified(rules, disk, c, m);
    assert RuleTags(rules, disk, once, m) == RuleTags(rules, disk, c, m);
    assert once.tags + RuleTags(rules, disk, c, m) == once.tags;
  }
}
