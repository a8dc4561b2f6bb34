/** When reusing stored records can be noticed: the exact condition on the edits between scans. */
module ExifHistory {
  import opened Text
  import opened ExifCache

  /** The photos change to each of `disks` in turn, and are scanned each time. */
  function ScanEach(disks: seq<Disk>, times: nat -> int): seq<Event> {
    if disks == [] then []
    else
      var n := |disks| - 1;
      ScanEach(disks[..n], times) + [Edit(disks[n]), Classify(times(n))]
  }

  function Unscanned(captures: seq<Capture>): World {
    World(map[], captures, map[])
  }

  /** After these scans the captures are what they are when every file is read every time. */
  ghost predicate Agrees(rules: Rules, captures: seq<Capture>, disks: seq<Disk>, times: nat -> int) {
    AfterAll(rules, Unscanned(captures), ScanEach(disks, times)).captures ==
    AfterAllAfresh(rules, Unscanned(captures), ScanEach(disks, times)).captures
  }

  /** Whatever the rules, the captures and the times: nobody can tell after any of the scans. */
  ghost predicate ReuseIsSafe(disks: seq<Disk>) {
    forall rules, captures, times: nat -> int, k: nat :: k <= |disks| && DistinctIds(captures) ==>
      Agrees(rules, captures, disks[..k], times)
  }

  /** Between scan `i` and the next, the file changes and keeps its modification time. */
  predicate StaleEdit(disks: seq<Disk>, i: nat, path: string) {
    && i + 1 < |disks| && path in disks[i] && path in disks[i + 1]
    && disks[i][path].mtime == disks[i + 1][path].mtime && disks[i][path].content != disks[i + 1][path].content
  }

  ghost predicate NoStaleEdit(disks: seq<Disk>) {
    forall i: nat, path :: !StaleEdit(disks, i, path)
  }

  // ---- One scan after another ----

  lemma TwoMore(rules: Rules, w: World, events: seq<Event>, disk: Disk, now: int)
    ensures AfterAll(rules, w, events + [Edit(disk), Classify(now)]) ==
            After(rules, After(rules, AfterAll(rules, w, events), Edit(disk)), Classify(now))
    ensures var before := AfterAllAfresh(rules, w, events).(disk := disk);
            AfterAllAfresh(rules, w, events + [Edit(disk), Classify(now)]) ==
            before.(captures := ScannedAfresh(rules, disk, before.captures, now))
  {
    var more := events + [Edit(disk)];
    assert events + [Edit(disk), Classify(now)] == more + [Classify(now)];
    assert (more + [Classify(now)])[..|more|] == more && more[..|events|] == events;
  }

  /** The cache holds the present record of every capture. */
  ghost predicate UpToDate(rules: Rules, w: World) {
    forall c: Capture :: c in w.captures ==>
      c.id in w.cache && w.cache[c.id].(extractedAt := 0) == Extract(rules, w.disk, LocalPath(c), 0)
  }

  /** What the next scan uses is what it would read. */
  ghost predicate Exact(rules: Rules, w: World) {
    forall c: Capture :: c in w.captures ==>
      RecordFor(rules, w.disk, w.cache, c, 0).(extractedAt := 0) == Extract(rules, w.disk, LocalPath(c), 0)
  }

  lemma TimeDoesNotMatter(rules: Rules, disk: Disk, cache: Cache, c: Capture, now: int)
    ensures RecordFor(rules, disk, cache, c, now).(extractedAt := 0) == RecordFor(rules, disk, cache, c, 0).(extractedAt := 0)
  {
  }

  /** An edit that is not stale leaves the cache good enough. */
  lemma EditKeepsExact(rules: Rules, w: World, disk: Disk)
    requires UpToDate(rules, w)
    requires forall path :: path in w.disk && path in disk && w.disk[path].mtime == disk[path].mtime ==> w.disk[path].content == disk[path].content
    ensures Exact(rules, w.(disk := disk))
  {
    forall c: Capture | c in w.captures
      ensures RecordFor(rules, disk, w.cache, c, 0).(extractedAt := 0) == Extract(rules, disk, LocalPath(c), 0)
    {
      if Unchanged(disk, w.cache, c) {
        assert w.cache[c.id].(extractedAt := 0) == Extract(rules, w.disk, LocalPath(c), 0);
      }
    }
  }

  lemma ScanIsExact(rules: Rules, w: World, now: int)
    requires Exact(rules, w)
    ensures Scanned(rules, w.disk, w.cache, w.captures, now) == ScannedAfresh(rules, w.disk, w.captures, now)
  {
    forall i | 0 <= i < |w.captures|
      ensures RecordFor(rules, w.disk, w.cache, w.captures[i], now).metadata ==
              Extract(rules, w.disk, LocalPath(w.captures[i]), now).metadata
    {
      TimeDoesNotMatter(rules, w.disk, w.cache, w.captures[i], now);
      assert w.captures[i] in w.captures;
      assert Extract(rules, w.disk, LocalPath(w.captures[i]), now).metadata == Extract(rules, w.disk, LocalPath(w.captures[i]), 0).metadata;
    }
  }

  lemma ScanMakesUpToDate(rules: Rules, w: World, now: int)
    requires Exact(rules, w) && DistinctIds(w.captures)
    ensures UpToDate(rules, After(rules, w, Classify(now))) && DistinctIds(After(rules, w, Classify(now)).captures)
  {
    var after := After(rules, w, Classify(now));
    forall i | 0 <= i < |w.captures|
      ensures after.captures[i].id in after.cache
      ensures after.cache[after.captures[i].id].(extractedAt := 0) == Extract(rules, w.disk, LocalPath(after.captures[i]), 0)
    {
      KeepsPlace(rules, w, now, i);
      RecordIsUpToDate(rules, w, w.captures[i], after.captures[i], now);
    }
    UpToDateByIndex(rules, after);
  }

  lemma KeepsPlace(rules: Rules, w: World, now: int, i: nat)
    requires i < |w.captures|
    ensures var after := Scanned(rules, w.disk, w.cache, w.captures, now);
            after[i].id == w.captures[i].id && LocalPath(after[i]) == LocalPath(w.captures[i])
  {
  }

  lemma UpToDateByIndex(rules: Rules, w: World)
    requires forall i :: 0 <= i < |w.captures| ==>
               w.captures[i].id in w.cache && w.cache[w.captures[i].id].(extractedAt := 0) == Extract(rules, w.disk, LocalPath(w.captures[i]), 0)
    ensures UpToDate(rules, w)
  {
  }

  lemma RecordIsUpToDate(rules: Rules, w: World, was: Capture, c: Capture, now: int)
    requires Exact(rules, w) && DistinctIds(w.captures) && was in w.captures && c.id == was.id && LocalPath(c) == LocalPath(was)
    ensures var cache := Stored(rules, w.disk, w.cache, Jobs(w.disk, w.cache, w.captures), now);
            c.id in cache && cache[c.id].(extractedAt := 0) == Extract(rules, w.disk, LocalPath(c), 0)
  {
    MetadataIsComplete(rules, w.disk, w.cache, w.captures, w.cache, was, now);
    TimeDoesNotMatter(rules, w.disk, w.cache, was, now);
  }

  // ---- Any number of scans ----

  lemma NoStaleEditBefore(disks: seq<Disk>, k: nat)
    requires NoStaleEdit(disks) && k <= |disks|
    ensures NoStaleEdit(disks[..k])
  {
    forall i: nat, path ensures !StaleEdit(disks[..k], i, path) {
      assert !StaleEdit(disks, i, path);
    }
  }

  lemma {:induction false} ScansWithoutStaleEdits(rules: Rules, captures: seq<Capture>, disks: seq<Disk>, times: nat -> int)
    requires NoStaleEdit(disks) && DistinctIds(captures)
    ensures var w := AfterAll(rules, Unscanned(captures), ScanEach(disks, times));
            && Agrees(rules, captures, disks, times) && DistinctIds(w.captures)
            && w.disk == AfterAllAfresh(rules, Unscanned(captures), ScanEach(disks, times)).disk
            && (if disks == [] then w == Unscanned(captures) else w.disk == disks[|disks| - 1] && UpToDate(rules, w))
  {
    if disks != [] {
      var n := |disks| - 1;
      var init := disks[..n];
      NoStaleEditBefore(disks, n);
      ScansWithoutStaleEdits(rules, captures, init, times);
      TwoMore(rules, Unscanned(captures), ScanEach(init, times), disks[n], times(n));
      var before := AfterAll(rules, Unscanned(captures), ScanEach(init, times)).(disk := disks[n]);
      NextIsExact(rules, captures, disks, times);
      ScanIsExact(rules, before, times(n));
      ScanMakesUpToDate(rules, before, times(n));
    }
  }

  lemma NextIsExact(rules: Rules, captures: seq<Capture>, disks: seq<Disk>, times: nat -> int)
    requires disks != [] && NoStaleEdit(disks)
    requires var init := disks[..|disks| - 1];
             var w := AfterAll(rules, Unscanned(captures), ScanEach(init, times));
             if init == [] then w == Unscanned(captures) else w.disk == init[|init| - 1] && UpToDate(rules, w)
    ensures Exact(rules, AfterAll(rules, Unscanned(captures), ScanEach(disks[..|disks| - 1], times)).(disk := disks[|disks| - 1]))
  {
    var n := |disks| - 1;
    var w := AfterAll(rules, Unscanned(captures), ScanEach(disks[..n], times));
    if n > 0 {
      forall path | path in w.disk && path in disks[n] && w.disk[path].mtime == disks[n][path].mtime
        ensures w.disk[path].content == disks[n][path].content
      {
        assert !StaleEdit(disks, n - 1, path);
      }
      EditKeepsExact(rules, w, disks[n]);
    }
  }

  // ---- An input for every stale edit ----

  /** A position that tells one content from all others. */
  function Telling(content: Content): Rules {
    Rules(name => {}, path => {}, (w, h) => false, date => None,
          c => (NOTHING.(gps := Some(if c == content then Gps(1, 1) else Gps(0, 0))), ""))
  }

  function PhotoAt(path: string): Capture {
    Capture("1", "", "", "", if path == "" then None else Some(path), None, "", None, {})
  }

  /** After the first stale edit, a scan with reuse shows the old position and a full read the new one. */
  lemma StaleEditShows(rules: Rules, captures: seq<Capture>, disks: seq<Disk>, i: nat, path: string, times: nat -> int)
    requires StaleEdit(disks, i, path) && NoStaleEdit(disks[..i + 1])
    requires rules == Telling(disks[i + 1][path].content) && captures == [PhotoAt(path)]
    ensures var events := ScanEach(disks[..i + 2], times);
            var reused, read := AfterAll(rules, Unscanned(captures), events).captures, AfterAllAfresh(rules, Unscanned(captures), events).captures;
            |reused| == |read| == 1 && reused[0].gps == Some(Gps(0, 0)) && read[0].gps == Some(Gps(1, 1))
  {
    var init := disks[..i + 1];
    ScansWithoutStaleEdits(rules, captures, init, times);
    OneCaptureStays(rules, path, init, times);
    var disk := disks[i + 1];
    assert disks[..i + 2] == init + [disk];
    NextScan(rules, captures, init, disk, times);
    var w := AfterAll(rules, Unscanned(captures), ScanEach(init, times));
    LooksAtPath(w.captures[0], disk, path);
    assert w.captures == [w.captures[0]] && w.disk == disks[i];
    StaleScan(rules, w.captures[0], w, disks[i], disk, path, times(|init|));
  }

  lemma LooksAtPath(c: Capture, disk: Disk, path: string)
    requires c.destPath == PhotoAt(path).destPath && c.sourcePath == "" && path in disk
    ensures LocalPath(c) == path && IsLocal(disk, c)
  {
  }

  /** The captures after one more scan, with and without reuse. */
  lemma NextScan(rules: Rules, captures: seq<Capture>, init: seq<Disk>, disk: Disk, times: nat -> int)
    requires Agrees(rules, captures, init, times)
    ensures var w := AfterAll(rules, Unscanned(captures), ScanEach(init, times));
            var events := ScanEach(init + [disk], times);
            && AfterAll(rules, Unscanned(captures), events).captures == Scanned(rules, disk, w.cache, w.captures, times(|init|))
            && AfterAllAfresh(rules, Unscanned(captures), events).captures == ScannedAfresh(rules, disk, w.captures, times(|init|))
  {
    assert (init + [disk])[..|init|] == init;
    TwoMore(rules, Unscanned(captures), ScanEach(init, times), disk, times(|init|));
  }

  lemma StaleScan(rules: Rules, c: Capture, w: World, former: Disk, disk: Disk, path: string, now: int)
    requires path in former && path in disk && former[path].mtime == disk[path].mtime && former[path].content != disk[path].content
    requires rules == Telling(disk[path].content) && w.disk == former && w.captures == [c] && UpToDate(rules, w)
    requires LocalPath(c) == path && IsLocal(disk, c)
    ensures |Scanned(rules, disk, w.cache, w.captures, now)| == |ScannedAfresh(rules, disk, w.captures, now)| == 1
    ensures Scanned(rules, disk, w.cache, w.captures, now)[0].gps == Some(Gps(0, 0))
    ensures ScannedAfresh(rules, disk, w.captures, now)[0].gps == Some(Gps(1, 1))
  {
    assert w.captures[0] in w.captures;
    assert Unchanged(disk, w.cache, c);
  }

  lemma {:induction false} OneCaptureStays(rules: Rules, path: string, disks: seq<Disk>, times: nat -> int)
    ensures var captures := AfterAll(rules, Unscanned([PhotoAt(path)]), ScanEach(disks, times)).captures;
            |captures| == 1 && captures[0].id == "1" && captures[0].destPath == PhotoAt(path).destPath && captures[0].sourcePath == ""
  {
    if disks != [] {
      var n := |disks| - 1;
      OneCaptureStays(rules, path, disks[..n], times);
      TwoMore(rules, Unscanned([PhotoAt(path)]), ScanEach(disks[..n], times), disks[n], times(n));
    }
  }

  lemma {:induction false} FirstStaleEdit(disks: seq<Disk>) returns (i: nat, path: string)
    requires !NoStaleEdit(disks)
    ensures StaleEdit(disks, i, path) && NoStaleEdit(disks[..i + 1])
  {
    var j: nat, p :| StaleEdit(disks, j, p);
    var n := |disks| - 1;
    if NoStaleEdit(disks[..n]) {
      i, path := j, p;
      if i + 1 < n {
        assert StaleEdit(disks[..n], i, path);
      }
      assert i + 1 == n;
    } else {
      i, path := FirstStaleEdit(disks[..n]);
      assert disks[..n][..i + 1] == disks[..i + 1];
    }
  }

  /**
   For every list of edits with a scan after each: nobody can tell that records are reused, whatever the rules, the
   captures and the times, if and only if no file changes between two scans and keeps its modification time.
   */
  lemma ReuseIsSafeIff(disks: seq<Disk>)
    ensures ReuseIsSafe(disks) <==> NoStaleEdit(disks)
  {
    if NoStaleEdit(disks) {
      forall rules, captures, times: nat -> int, k: nat | k <= |disks| && DistinctIds(captures)
        ensures Agrees(rules, captures, disks[..k], times)
      {
        NoStaleEditBefore(disks, k);
        ScansWithoutStaleEdits(rules, captures, disks[..k], times);
      }
    } else {
      StaleEditIsNoticed(disks);
    }
  }

  lemma StaleEditIsNoticed(disks: seq<Disk>)
    requires !NoStaleEdit(disks)
    ensures !ReuseIsSafe(disks)
  {
    var i, path := FirstStaleEdit(disks);
    var times: nat -> int := (k: nat) => k;
    var rules, captures := Telling(disks[i + 1][path].content), [PhotoAt(path)];
    StaleEditShows(rules, captures, disks, i, path, times);
    Noticed(rules, captures, disks, i + 2, times);
  }

  lemma Noticed(rules: Rules, captures: seq<Capture>, disks: seq<Disk>, k: nat, times: nat -> int)
    requires k <= |disks| && DistinctIds(captures) && !Agrees(rules, captures, disks[..k], times)
    ensures !ReuseIsSafe(disks)
  {
  }
}
