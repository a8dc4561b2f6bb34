# Photos sync: a verified model

This project models the parts of the photo library server in which state is shared, resumed, cached or merged, and
proves what those parts promise. Network, disk and database are maps, sequences and functions; what is left is the logic
of the source, branch by branch. `dafny verify dfyconfig.toml` checks everything.

## Components

- **Download jobs.** `Transfer` is one file: HTTP Range resumption (RFC 9110, sections 14.2, 15.3.7 and 15.5.17) and
  promotion of the part file. `Ingestion` is the whole job as a step system, one coordinator and any number of workers
  around a locked record; `IngestionCounts`, `IngestionBooks` and `IngestionFiles` hold its invariants for counters,
  registration and files, `IngestionRuns` the results about whole jobs, `IngestionProgress` what the record shows
  meanwhile, `IngestionEnd` what a job leaves behind. `IngestionJob` has the objects: the record with its locked
  sections, and the job, whose loops are proved to be runs of the step system. `IngestionRows` ties a flush to the real
  table. `LocalNames` names the files, `IngestionSetup` makes a job of a listing, `JobGuard` lets one job run at a time.
- **Remote scan.** `RemoteScan` and `Reduction` reduce the requested folders, `RemoteWalk` walks them (PROPFIND is that
  of RFC 4918, section 9.1), `RemoteListing` says what it finds in terms of the listings alone, `DeepFolders` has the
  server on which the reduction loses a photo.
- **Gallery.** `Gallery` has the paged feeds, `GalleryDays` the relation between days and the global feed,
  `GalleryFollow` and `GalleryFollowDay` clients that follow the pages (`Paging` has what is common to both), and
  `GalleryTable` the way from the table to the feeds, `GalleryOrder` the order and content of responses in plain values.
  `Sorting` has the facts about stable sorts.
- **Captures table.** `Captures` has the upsert as a function on tables and what it keeps, `CaptureStore` the object
  that performs it step by step, with the date repair; `UpsertCollisions` says which records of a batch get lost;
  `CaptureColumns` says what is stored of a record; `Dates` reads dates from file names, and `DateShapes` proves which
  ones, form by form.
- **Agreement with something simpler.** `ExifCache` compares the incremental scan with reading everything, `ExifHistory`
  says when the two differ and `ExifTags` which tags there are, `LogStream` compares the log buffer and its late
  subscribers with the whole log.
- **Long-running guarantees.** `Trash`, with `TrashNames` for the literal paths, `Lockout` and, for several names of one
  account, `LockoutAccounts`.

`Text`, `Paths`, `Dictionaries` and `Remote` hold what several of them share.

## Hypotheses

They are stated in the lemmas that need them:

- An honest server answers a request from offset n with an error, with the rest of the content from n (206), with the
  whole content (200), or with 416 when nothing is left; every body may be cut short. No local path is another's part
  file.
- Local paths of a job are distinct where file contents matter. `LocalNames` proves when they are. Over several jobs a
  local path has to stand for the same remote file, which a retry does not always keep (see below).
- For the one-to-one correspondence in the trash, the fallback names `stem_inode` and `stem_restored` are free; the code
  does not check them again. Conservation of contents has no hypothesis.
- For the exact condition of the reduced scan, the server is a tree: a photo has one depth below a requested path, and
  requested paths that lead to the same photo are nested.
- For the single-call and batch equality of upserts, records have distinct destinations and distinct resolved ids.
- For the EXIF cache over any history, path and modification time determine content.
- For lockout bounds the clock does not run backwards, and recording a failure is one step.

## Where the code does less than its documentation says

Each point names the lemma with the exact condition under which the documented property holds; for most a second one
gives an input for which it fails.

- "Every failure is listed for a retry" holds if and only if no exception has an empty text
  (`IngestionRuns.JobRecordAddsUp`, `IngestionRuns.SilentFailureIsLost`): the coordinator looks at the text, not at the
  outcome.
- A download is exact if and only if the listing does not understate the size (`Transfer.ExactIffSizeNotUnderstated`); a
  file of unlisted size gets no check (`Transfer.UnlistedSizeArrives`). With a true size, a resumed download is exact if
  and only if the part was a prefix of the present content (`Transfer.PromotionIsExactIff`,
  `Transfer.OldPartIsCompleted`).
- "Retry only files that failed in the latest job": the list read is that of the latest job if and only if no other
  start was granted since (`JobGuard.RetryIsCurrentIff`, `JobGuard.RetryMayLagBehind`).
- A retry names files by themselves, so a file keeps its local name, and its part file, if and only if both jobs hash it
  or neither does (`LocalNames.RetryKeepsNameIff`, `LocalNames.RetryAloneRenames`).
- "Re-upserting every row corrects any bad dates" holds if and only if no misdated row lacks both a destination and an
  id of its own (`CaptureStore.Store.FixCaptureDates`, `CaptureStore.OldRowIsNotFixed`); such a row stays and a
  corrected copy appears. Upserts store no such row (`CaptureStore.UpsertsStoreNoLostRows`).
- Repeating an upsert is harmless if and only if no record is anonymous in that sense
  (`Captures.RepeatingIsIdempotent`).
- A batch keeps a known destination if and only if no other record overtakes it
  (`UpsertCollisions.KnownDestinationStaysIff`, `UpsertCollisions.LaterRecordTakesTheRow`).
- Local names are distinct if and only if no kept name looks like a later generated one
  (`LocalNames.LocalNamesApartIffNoClash`, `LocalNames.LookalikesClash`); a generated name is not compared with those in
  use.
- Scanning the smallest set of roots finds what all requested ones find if and only if no photo is beyond the depth
  limit for a root and within it for a path below (`RemoteWalk.ReducedScanFindsEverythingIff`,
  `DeepFolders.ReductionLosesDeepPhoto`).
- Following the pages of a feed shows every photo once if and only if no two rows of one kind share day, name and path
  up to case (`GalleryFollow.EveryRowOnceIff`, `GalleryFollow.TieSplitsPages`): each page is a query of its own.
- While fallback names are free, trash files and entries stay in step if and only if no database error follows a file
  operation (`Trash.OpKeepsOneToOne`, `Trash.HalfDoneIsNoticed`). Contents are kept if and only if no fallback name was
  taken (`Trash.OnlyDeletesDestroyIff`).
- A recovery gives an entry a file of its own if and only if no other entry records the path it chooses
  (`Trash.RecoveryKeepsApartIff`, `Trash.RecoveredFileIsShared`); of two that share one, only the first comes back
  (`Trash.OtherKeepsItsFileIff`, `Trash.SecondRestoreFindsNothing`).
- Fallback names of different photos differ when both have an extension (`TrashNames.FallbacksAreApart`); a name that
  ends in a dot may meet another (`TrashNames.OddNamesShareAFallback`). Two photos of one path have the same fallback,
  so the second restore replaces the first (`TrashNames.SecondRestoreReplacesFirst`).
- Ten failures lock a name, but the bound on guesses holds if and only if requests do not overlap
  (`Lockout.SequentialBoundIff`, `Lockout.ElevenAtOnceExceedTheBound`), and it is a bound for an account if and only if
  all requests spell its name alike (`LockoutAccounts.AccountIsBoundedIff`, `LockoutAccounts.EleventhGuessPasses`).
- "Unchanged records reused" cannot be noticed if and only if no file changes between two scans and keeps its
  modification time (`ExifHistory.ReuseIsSafeIff`, `ExifHistory.StaleEditShows`).
- A log queue has its lines in order if and only if emits do not overlap (`LogStream.QueuesInOrderIff`,
  `LogStream.OverlappingEmitsReorder`).

## Model

| member | source | states |
|---|---|---|
| `Transfer.LocalFile.Transfer` | photos_sync/endpoints/webdav_download.py:325-398 | a whole transfer in place: the files and the outcome are those of one attempt, and the progress shown for a downloaded file is its length |
| `Transfer.LocalFile.Replace` | photos_sync/endpoints/webdav_download.py:368-396 | promotion moves the part file over the local file and fails when there is no part file |
| `Transfer.AttemptIsExact` | photos_sync/endpoints/webdav_download.py:342-398 | with an honest server and a listed size not below the real one: the part stays a prefix of the content, a downloaded file is the content, nothing else changes the local file, and only a full 200 answer may shorten the part |
| `Transfer.RunIsExact` | photos_sync/endpoints/webdav_download.py:325-398 | the same over any number of attempts, truncations and answers |
| `Transfer.ExactIffSizeNotUnderstated` | photos_sync/endpoints/webdav_download.py:390-395 | for a given listed size and content: every promotion is exact, whatever an honest server answers, if and only if the size is not below the length of the content |
| `Transfer.FullBodyIsPromotedIff` | photos_sync/endpoints/webdav_download.py:381-396 | from any disk without a complete file, an unbroken answer with a whole file makes the file its body if and only if the listed size is 0 or the length of the body; otherwise the body stays as the part and the attempt fails |
| `Transfer.RestIsPromotedIff` | photos_sync/endpoints/webdav_download.py:371-396 | the same for an unbroken 206 answer, with the part in front of the body |
| `Transfer.BrokenBodyIsKept` | photos_sync/endpoints/webdav_download.py:381-398 | what arrived of a broken body stays in the part file, and the local file as it was |
| `Transfer.NothingLeftPromotesIff` | photos_sync/endpoints/webdav_download.py:367-370 | after a 416 the part is promoted if and only if its length is the listed size; otherwise the attempt fails and changes nothing |
| `Transfer.OversizedPartIsDiscarded` | photos_sync/endpoints/webdav_download.py:348-350 | a part longer than the listed size is discarded, and the request asks from the start |
| `Transfer.PresentFileIsSkipped` | photos_sync/endpoints/webdav_download.py:343-344 | a transfer is skipped if and only if the local file has the listed size, and that is not 0 |
| `Transfer.UnlistedSizeArrives` | photos_sync/endpoints/webdav_download.py:390-396 | a file of unlisted size arrives when an honest server sends all of it |
| `Transfer.ProgressIsKept` | photos_sync/endpoints/webdav_download.py:346-389 | while Range is honoured, every attempt that brings a byte leaves a strictly longer prefix or the finished file, from any prefix |
| `Transfer.ResumingCompletes` | photos_sync/endpoints/webdav_download.py:346-396 | so a file of which m bytes are missing is complete after at most m + 1 such attempts, however often the connection breaks |
| `Transfer.PromotionIsExactIff` | photos_sync/endpoints/webdav_download.py:355-395 | with a true size and an honest answer, a promoted file is the content if and only if the server sent everything or the part was a prefix of this content |
| `Transfer.OldPartIsCompleted` | photos_sync/endpoints/webdav_download.py:355-395 | an input: a part of an older content is completed by the end of the new one and passes the size check |
| `IngestionCounts.StartCounts` | photos_sync/endpoints/webdav_download.py:270-306 | after the precheck all counters agree with the state of the files |
| `IngestionCounts.BeginCounts` | photos_sync/endpoints/webdav_download.py:337-339 | taking up a transfer moves one file from queued to active; `max(0, queued - 1)` never cuts off |
| `IngestionCounts.TransferStepCounts` | photos_sync/endpoints/webdav_download.py:342-398 | steps of a transfer in flight change no counter |
| `IngestionCounts.CollectCounts` | photos_sync/endpoints/webdav_download.py:408-433 | collecting a transfer moves one file from active to completed, under its outcome, and lists it as failed at most once |
| `IngestionCounts.SumsAddUp` | photos_sync/endpoints/webdav_download.py:302-306 | queued, active and completed files are all files; downloaded, skipped and failed files are the completed ones |
| `IngestionBooks.StartIsBooked` | photos_sync/endpoints/webdav_download.py:247-249 | at the start the known destinations are the local paths that already have a row |
| `IngestionBooks.RegisterIsBooked` | photos_sync/endpoints/webdav_download.py:251-266 | registering adds exactly one new path, never one that is pending, flushed or already in the table |
| `IngestionBooks.StepIsBooked` | photos_sync/endpoints/webdav_download.py:400-461 | every step of every interleaving keeps the books: known destinations are those that had a row, are pending or were flushed, each path at most once, and no file without an error text is forgotten |
| `IngestionRuns.JobRecordAddsUp` | photos_sync/endpoints/webdav_download.py:302-306 | in every state of every interleaving: queued + active + completed = total while running, completed = downloaded + skipped + failed, failed hrefs are distinct, and every failure is listed if and only if none had an empty error text |
| `IngestionRuns.SilentFailureIsLost` | photos_sync/endpoints/webdav_download.py:397-438 | an input: a whole run in which a transfer fails with an empty text, the job ends without an exception, and nothing is listed |
| `IngestionRuns.NoPathTwice` | photos_sync/endpoints/webdav_download.py:170-176 | at every moment no path is registered twice or had a row before, `registered` counts the records in the table, and no more than a batch is pending |
| `IngestionRuns.QuietEndIsComplete` | photos_sync/endpoints/webdav_download.py:400-461 | a job that ends without an exception has collected every file, leaves nothing pending, and every file it does not report as failed has a row, for every batch size and order |
| `IngestionEnd.HasRowIffArrived` | photos_sync/endpoints/webdav_download.py:251-442 | after such a job, with distinct local paths, a file has a row if and only if it had one before, was found in place, or was collected without an error text |
| `IngestionEnd.OnlyArrivedFilesGetRows` | photos_sync/endpoints/webdav_download.py:435-438 | in every state of every interleaving, a path that got its row from the job is that of such a file |
| `IngestionEnd.RecordTellsTheEnd` | photos_sync/endpoints/webdav_download.py:462-497 | in every interleaving the record says running until the end and done from then on, with the text of the exception that ended the job, if any, and nothing active or queued |
| `IngestionRuns.RetryIsOffered` | photos_sync/endpoints/webdav_download.py:491-497 | when a job ends, in whatever way, a retry is offered if and only if a reported failure was collected |
| `IngestionRuns.RetryListIsLawful` | photos_sync/endpoints/webdav_download.py:429-430 | the list for a retry holds files of the job, each href once |
| `IngestionRuns.EveryPhotoArrives` | photos_sync/endpoints/webdav_download.py:325-461 | honest server, quiet end, no failures: every file has a row, and is the remote content unless a file of the listed size was there before and stayed untouched |
| `IngestionRuns.NeverStuck` | photos_sync/endpoints/webdav_download.py:400-461 | in every reachable state but the end some worker or the coordinator can go on |
| `IngestionRuns.JobsEnd` | photos_sync/endpoints/webdav_download.py:400-497 | apart from chunks a job with n files takes at most 28 n + 14 steps, and it can stop only at its end |
| `IngestionProgress.ProgressIsTrue` | photos_sync/endpoints/webdav_download.py:351-389 | in every state of every interleaving the progress shown for a running transfer is the length of its part file |
| `IngestionProgress.OpenIsShown` | photos_sync/endpoints/webdav_download.py:351-380 | once the server has answered, the record shows nothing new for a file in place, 0 for a file that starts anew, else the part that is kept |
| `IngestionProgress.ResumedCountsParts` | photos_sync/endpoints/webdav_download.py:371-374 | the count of resumed transfers goes up with each answer that continues a part, and with nothing else |
| `IngestionProgress.FewRecordsAreUnsaved` | photos_sync/endpoints/webdav_download.py:413-442 | whenever the coordinator waits for a transfer, at most 24 records are not in the table yet |
| `IngestionSetup.ScanMakesLawfulJob` | photos_sync/endpoints/webdav_download.py:200-201 | a scan yields a job with distinct hrefs |
| `IngestionSetup.RetryMakesLawfulJob` | photos_sync/endpoints/webdav_download.py:203-211 | so does every retry, from whatever state it is retried |
| `IngestionSetup.PathsApartIffNoClash` | photos_sync/endpoints/webdav_download.py:232-245 | the local paths of a job are distinct up to case if and only if no names clash |
| `IngestionSetup.EveryListedPhotoArrives` | photos_sync/endpoints/webdav_download.py:178-461 | the whole way from a listing to the end of its job: every photo has a row, and all local files are the photos if and only if those that already lay there with the listed size were |
| `IngestionFiles.StepsAreAnAttempt` | photos_sync/endpoints/webdav_download.py:325-398 | in every run, with an honest server or not, a transfer that is over has left its files and its outcome as one attempt would with the answer that its own steps received |
| `IngestionFiles.DownloadIsExactIff` | photos_sync/endpoints/webdav_download.py:346-396 | even when a content has changed since: a downloaded file is the content if and only if the server sent everything or the part that the job found was a prefix of it |
| `IngestionFiles.StepFits` | photos_sync/endpoints/webdav_download.py:325-398 | every honest step of every interleaving keeps each part a prefix of its content and each downloaded file equal to it |
| `IngestionFiles.RunFits` | photos_sync/endpoints/webdav_download.py:325-398 | the same for whole runs |
| `IngestionFiles.CrashesDoNoHarm` | photos_sync/endpoints/webdav_download.py:346-396 | over any series of jobs, each cut off anywhere: parts stay prefixes, and a local file is what it was or the remote content |
| `IngestionFiles.ChangedContentsDoNoHarm` | photos_sync/endpoints/webdav_download.py:346-396 | the same when contents change between jobs or names are used for other files: as long as no job finds a stale part, a local file is what it was or what the server had when a job downloaded it |
| `IngestionJob.JobRecord.Start` | photos_sync/endpoints/webdav_download.py:102-123 | a start resets the record if and only if no job is running |
| `IngestionJob.JobRecord.Precheck` | photos_sync/endpoints/webdav_download.py:288-306 | sets the counters of present files and the last 20 of them, newest first |
| `IngestionJob.JobRecord.Begin` | photos_sync/endpoints/webdav_download.py:337-339 | the locked section that makes a transfer active |
| `IngestionJob.JobRecord.Opened` | photos_sync/endpoints/webdav_download.py:351-380 | the locked sections around the response: progress, and the count of resumed transfers |
| `IngestionJob.JobRecord.Chunk` | photos_sync/endpoints/webdav_download.py:386-389 | the locked section of a chunk |
| `IngestionJob.JobRecord.Collect` | photos_sync/endpoints/webdav_download.py:414-433 | the locked section that counts a finished transfer and lists it as recent or failed |
| `IngestionJob.JobRecord.Finish` | photos_sync/endpoints/webdav_download.py:491-497 | the last locked section of a job |
| `IngestionJob.DownloadJob.FlushRecords` | photos_sync/endpoints/webdav_download.py:170-176 | the method takes the flush step: rows, pending records and `registered` end as that step says, with or without a database error |
| `IngestionJob.DownloadJob.RegisterLocal` | photos_sync/endpoints/webdav_download.py:251-266 | the method takes the registration step, and a flush when the batch is full |
| `IngestionJob.DownloadJob.RegisterPresent` | photos_sync/endpoints/webdav_download.py:307-310 | the loop over present files is a run of the step system |
| `IngestionJob.DownloadJob.CollectTransfer` | photos_sync/endpoints/webdav_download.py:408-449 | a round of the loop, with steps of other transfers inside it, is a run of the step system |
| `IngestionJob.DownloadJob.CollectAll` | photos_sync/endpoints/webdav_download.py:400-451 | the loop over completed transfers and the flush after it, with any steps of the transfers in between, are a run of the step system that ends closed or with the exception |
| `IngestionJob.DownloadJob.Take` | photos_sync/endpoints/webdav_download.py:325-398 | a step of a transfer, on the record, the disk and the slot of its file |
| `IngestionJob.DownloadJob.LetTransfersRun` | photos_sync/endpoints/webdav_download.py:400-407 | transfers go on while the coordinator is busy; what is over stays as it is |
| `IngestionJob.DownloadJob.FlushIfDue` | photos_sync/endpoints/webdav_download.py:440-442 | a flush after every 25th file and after the last |
| `IngestionRows.FlushIsAnUpsert` | photos_sync/repository.py:695-802 | a flush, as an upsert of the real table, adds exactly the pending destinations and keeps the table's invariants |
| `IngestionRows.NewFilesGetRows` | photos_sync/endpoints/webdav_download.py:251-266 | flushing new files stores each of them in a row of its own: a new id, name, time and path of the file, and the date in its name |
| `JobGuard.OneJobAtATime` | photos_sync/endpoints/webdav_download.py:102-123 | in every interleaving at most one download job and at most one pipeline are live, and each flag says exactly whether there is one |
| `JobGuard.ResetOnlyWhenNobodyWorks` | photos_sync/endpoints/webdav_download.py:102-123 | a start resets the record if and only if no job is live |
| `JobGuard.PipelineRunsUnlessOneDoes` | photos_sync/web_server.py:151-166 | a pipeline request is let in if and only if no pipeline is live, and refused otherwise |
| `JobGuard.RetriesAreRecorded` | photos_sync/endpoints/webdav_download.py:43-61 | every retry list was recorded by a finished job; through any chain of retries hrefs stay distinct, and the live record belongs to the live worker |
| `JobGuard.RetryReadsTheLastList` | photos_sync/endpoints/webdav_download.py:46-53 | a retry reads the list of the last finished job |
| `JobGuard.RetryIsCurrentIff` | photos_sync/endpoints/webdav_download.py:46-61 | in every run a granted retry works on the list it read, and the job that recorded it is the latest finished one if and only if no other start was granted since |
| `JobGuard.EveryStartFinishes` | photos_sync/endpoints/webdav_download.py:102-123 | recorded lists only grow, one for every start that was granted and is over |
| `JobGuard.ChosenIff` | photos_sync/endpoints/webdav_download.py:184-218 | a job takes the files of its retry, or of its scan, without those whose names end in ".mp4" in any case unless these are asked for |
| `JobGuard.RetryMayLagBehind` | photos_sync/endpoints/webdav_download.py:46-61 | an input: a run from the start in which a retry is granted with the list of one job after another job has recorded a different one |
| `JobGuard.PipelineManager.Run` | photos_sync/web_server.py:151-166 | a second run is refused while the flag is set |
| `LocalNames.AssignLocalNames` | photos_sync/endpoints/webdav_download.py:232-245 | the naming loop computes one name per file, with a hash where the name is shared or taken |
| `LocalNames.LocalNameIs` | photos_sync/endpoints/webdav_download.py:232-245 | a photo keeps its name unless another file has it or an earlier one got it, in any case; then the hash of its href comes behind the stem |
| `LocalNames.HashIsRecoverable` | photos_sync/endpoints/webdav_download.py:240-243 | two generated names that agree up to case carry the same hash |
| `LocalNames.NamesMeetOnlyInClash` | photos_sync/endpoints/webdav_download.py:238-245 | two local names agree up to case if and only if an earlier kept name looks like the later generated one |
| `LocalNames.LocalNamesApartIffNoClash` | photos_sync/endpoints/webdav_download.py:232-245 | with distinct hashes, all local names differ up to case if and only if there is no such clash |
| `LocalNames.LookalikesClash` | photos_sync/endpoints/webdav_download.py:238-245 | inputs: for every photo name and hash function a listing in which two local names are the same |
| `LocalNames.LookalikesAreListed` | photos_sync/endpoints/webdav_download.py:201 | its hrefs are distinct and in the order of a listing |
| `LocalNames.LookalikesMayHaveDistinctHashes` | photos_sync/endpoints/webdav_download.py:241 | and its hashes can be distinct |
| `LocalNames.NoGeneratedLookalikes` | photos_sync/endpoints/webdav_download.py:232-245 | in particular when no remote name equals a generated one |
| `LocalNames.RetryKeepsNameIff` | photos_sync/endpoints/webdav_download.py:203-245 | a retried file keeps its local name if and only if both jobs hash it or neither does |
| `LocalNames.RetryAloneRenames` | photos_sync/endpoints/webdav_download.py:203-245 | a file that shares its name and is retried alone gets another local name |
| `RemoteScan.NonOverlappingRemotePaths` | photos_sync/storage/webdav_downloader.py:44-64 | the roots are requested paths, cover all of them, none covers another, and they come in sort order |
| `RemoteScan.NormalPathsAreLawful` | photos_sync/storage/webdav_downloader.py:50-61 | on normalized paths covering is a preorder, and a covering path sorts first, "/" included |
| `RemoteListing.NormalizedPath` | photos_sync/storage/webdav_downloader.py:50-53 | a path is normalized to one slash in front and none behind, and slashes alone to one |
| `RemoteListing.WhatAFolderCovers` | photos_sync/storage/webdav_downloader.py:57-62 | a folder covers itself and what is inside it, in any case, and not what merely starts alike; "/" covers everything |
| `RemoteListing.OrderOfRoots` | photos_sync/storage/webdav_downloader.py:55 | roots come by number of slashes, then by folded text |
| `RemoteScan.RootsAreDetermined` | photos_sync/storage/webdav_downloader.py:44-64 | up to case, the roots and their order depend only on the set of requested paths |
| `Reduction.RootsCoverAndAreApart` | photos_sync/storage/webdav_downloader.py:54-64 | the roots cover every requested path and none covers another |
| `Reduction.RootsAreFewest` | photos_sync/storage/webdav_downloader.py:45-48 | no selection of requested paths that covers all of them is smaller |
| `RemoteWalk.CollectFiles` | photos_sync/storage/webdav_downloader.py:123-165 | the recursive walk appends what its specification finds, and ends on every listing |
| `RemoteWalk.CollectedIsWhatIsFound` | photos_sync/storage/webdav_downloader.py:123-165 | the walk finds exactly the photos that folders at most five levels down show, cyclic listings included |
| `RemoteListing.CollectedIffListed` | photos_sync/storage/webdav_downloader.py:123-165 | a file is collected if and only if a folder at most five collections below lists it, as no collection and not as itself, with a name that ends in a wanted extension in any case; name, size and time are those listed |
| `RemoteListing.ListRemoteFiles` | photos_sync/storage/webdav_downloader.py:106-120 | the method returns exactly these files |
| `RemoteWalk.ReducedScanFindsEverythingIff` | photos_sync/endpoints/webdav_download.py:182-201 | on a case-consistent tree the reduced roots find the photos that all requested paths find if and only if none lies within the depth limit of a requested path and beyond it for the root above |
| `DeepFolders.ReductionLosesDeepPhoto` | photos_sync/storage/webdav_downloader.py:132-133 | inputs: for every requested folder with a requested one in it a server on which the reduction loses a photo |
| `DeepFolders.PicturesAreProper` | photos_sync/storage/webdav_downloader.py:36-41 | two of the folders that jobs scan are of this kind |
| `RemoteWalk.Discover` | photos_sync/endpoints/webdav_download.py:184-201 | the files of a job are one per non-empty href found |
| `Gallery.LoadPhotosPage` | photos_sync/repository.py:616-692 | prefix, legacy rows and two stable sorts give the slice of all rows sorted by day, name and path, and the total |
| `Gallery.LoadCapturesForDay` | photos_sync/repository.py:530-613 | the page of a day is the slice of its whole sorted feed, for every form of the date |
| `Gallery.GetPhotos` | photos_sync/endpoints/get_photos.py:16-65 | the response holds that page, the total and the next offset |
| `Gallery.GetDayPhotos` | photos_sync/endpoints/get_day_photos.py:15-77 | the same for one day |
| `Gallery.RenderPage` | photos_sync/endpoints/get_photos.py:24-64 | one photo per row, and a next offset if and only if rows remain |
| `Gallery.GlobalFeedSortsTheTable` | photos_sync/repository.py:624-690 | the global feed shows every visible row exactly once, in order |
| `Gallery.GlobalFeedIsDetermined` | photos_sync/repository.py:633-637 | without ties it does not depend on the order in which the engine returns rows |
| `GalleryOrder.FeedIsNewestFirst` | photos_sync/repository.py:633-690 | the global feed runs from the newest day to the oldest, undated photos last; within a day by name, then by path, in dictionary order and in any case |
| `GalleryOrder.DaysAreNewestFirst` | photos_sync/repository.py:530-613 | so does the concatenation of the days, latest first |
| `GalleryOrder.ResponseShowsRows` | photos_sync/endpoints/get_photos.py:24-64 | in a response days descend with undated photos last, and each photo shows a row of the table: path, name, day, favourite flag and whether the file exists; only favourites where only these are asked for |
| `GalleryOrder.NextPageIff` | photos_sync/endpoints/get_photos.py:53-63 | a response has fewer photos than asked for only at the end, says that more remain if and only if they do, and points behind its last photo |
| `GalleryOrder.LeIsDictionaryOrder` | photos_sync/repository.py:683-690 | the order of text: a prefix comes first, otherwise the first different character decides |
| `GalleryFollow.EveryRowOnceIff` | photos_sync/endpoints/get_photos.py:55-63 | following the next offset, with separate query answers and any limit for every page, collects each visible row exactly once if and only if no two dated and no two legacy rows tie |
| `GalleryFollow.NoTiesNoSwaps` | photos_sync/repository.py:633-637 | in particular if no two visible rows tie at all |
| `GalleryFollow.FollowVisitsEveryPhotoOnce` | photos_sync/endpoints/get_photos.py:55-63 | then the client sees the photos of the sorted visible rows in order, each once |
| `GalleryFollow.TieSplitsPages` | photos_sync/endpoints/get_photos.py:55-63 | inputs: for any two tied rows there are answers that show one of them on both pages and the other on none |
| `GalleryFollow.MayShowIsMerge` | photos_sync/repository.py:648-692 | the feeds that some answers of the database give are the merges of a sorted arrangement of dated rows with any arrangement of legacy rows |
| `GalleryFollowDay.EveryRowOfDayOnceIff` | photos_sync/endpoints/get_day_photos.py:66-77 | the same for the pages of one day |
| `GalleryFollowDay.ShownAreTheDays` | photos_sync/repository.py:555-589 | what those pages show are the visible rows of that effective day |
| `Paging.AlwaysOnceIffTieless` | photos_sync/repository.py:668-692 | merging a sorted stream with another one, all requests meet the same feed, and clients collect everything once, if and only if neither stream has a tie |
| `GalleryTable.UpsertedPhotoIsShown` | photos_sync/repository.py:724-755 | a photo with a camera name that an upsert has stored is shown by the feed of the day in its name and by the global feed |
| `GalleryDays.DayFeedShowsTheDay` | photos_sync/repository.py:555-613 | the feed of a day shows exactly the visible rows of that effective day, sorted |
| `GalleryDays.NoRowOnTwoDays` | photos_sync/repository.py:555-589 | no row appears on two days |
| `GalleryDays.DaysConcatenateToGlobalFeed` | photos_sync/repository.py:530-692 | the feeds of all days, latest first and undated last, are a sorted arrangement of the global feed, and are equal to it without ties |
| `GalleryDays.TotalsAddUp` | photos_sync/repository.py:604-606 | the totals of the days add up to the length of their concatenation |
| `Sorting.TwoSortsAreLexicographic` | photos_sync/repository.py:683-691 | two stable sorts in a row are one sort by both keys |
| `Sorting.PageNeedsOnlyPrefix` | photos_sync/repository.py:668-671 | a page of the merge needs no more than the first offset + limit rows of the sorted stream |
| `CaptureStore.IndexByKey` | photos_sync/repository.py:723-766 | the loop that builds `records_by_key` |
| `CaptureStore.Store.IdsByDestination` | photos_sync/repository.py:708-718 | the lookup yields an id for exactly the wanted destinations that have a row |
| `CaptureStore.Store.WriteChunks` | photos_sync/repository.py:769-802 | any chunk size gives the same table |
| `CaptureStore.Store.UpsertCaptures` | photos_sync/repository.py:695-802 | the method refines the table update, for every batch and chunk size |
| `Captures.ApplyAllWrites` | photos_sync/repository.py:790-798 | each record is stored under its id, an existing row keeps its favourite flag, all other rows stay |
| `Captures.RecordsAreDeduplicated` | photos_sync/repository.py:766-768 | after both deduplications every id and every destination occurs once |
| `Captures.UpsertKeepsInvariants` | photos_sync/repository.py:707-802 | ids and non-empty destinations stay unique, for every batch |
| `Captures.UpsertPreserves` | photos_sync/repository.py:734-798 | a known destination that is still there has its id, rows keep their favourite flag, new rows start unfavourited, rows outside the batch stay |
| `UpsertCollisions.KnownDestinationStaysIff` | photos_sync/repository.py:766-768 | a known destination of the batch is still in the table if and only if no other record overtakes it: one with the same id whose key first occurs later |
| `UpsertCollisions.LaterRecordTakesTheRow` | photos_sync/repository.py:766-768 | inputs: a later record for a new destination with the id of the row |
| `UpsertCollisions.LastForDestinationCounts` | photos_sync/repository.py:766-768 | of several records for one destination only the last counts, whatever their ids |
| `Captures.UpsertOfApart` | photos_sync/repository.py:720-802 | for records with distinct destinations and ids, the new table record by record |
| `CaptureColumns.BatchIsStored` | photos_sync/repository.py:748-766 | in the new table each record of such a batch has its columns under its id: that of its destination, or its own, or a new one if its own is empty or a path; the day is that of the date, else of a positive modification time |
| `CaptureColumns.DatedIsStored` | photos_sync/repository.py:726-755 | a record with a date in its name, or else one that it brings, is stored under that date and its day |
| `CaptureColumns.UndatedIsStored` | photos_sync/repository.py:728-755 | a record with neither is stored without a date, under the day of a positive modification time |
| `Captures.EachEqualsBatch` | photos_sync/repository.py:720-802 | one call for such a batch equals one call per record |
| `Captures.EachInAnyOrder` | photos_sync/repository.py:720-802 | in any order |
| `Captures.RepeatingIsIdempotent` | photos_sync/repository.py:734-746 | repeating a batch changes nothing if and only if every record has a destination or an id of its own |
| `CaptureStore.Store.FixCaptureDates` | photos_sync/endpoints/fix_capture_dates.py:23-50 | the three counters are the numbers of misdated, undated and well-dated rows; in the new table a misdated row gets the date in its name or, if it has neither destination nor id, a corrected copy; all dates are right afterwards if and only if no row is of that kind |
| `CaptureStore.FixOne` | photos_sync/endpoints/fix_capture_dates.py:40-42 | upserting a misdated row again changes its date and day only, or adds a copy under a new id |
| `CaptureStore.UpsertKeepsDates` | photos_sync/repository.py:724-728 | a table that only upserts have written has nothing to fix |
| `CaptureStore.UpsertsStoreNoLostRows` | photos_sync/repository.py:724-755 | rows that the date repair cannot fix do not come from upserts |
| `CaptureStore.OldRowIsNotFixed` | photos_sync/endpoints/fix_capture_dates.py:40-42 | inputs: a row of an older table with a path for an id, no destination and no date stays as it is, and a copy appears |
| `CaptureStore.RegisteringAddsDestinations` | photos_sync/endpoints/webdav_download.py:253-263 | a batch of newly found files adds exactly its destinations |
| `CaptureStore.CameraDateIsStored` | photos_sync/repository.py:724-755 | a photo with a camera name is stored under the date and day in its name |
| `Dates.ExtractDateFromFilename` | photos_sync/utils/dates.py:35-68 | the loop yields the date of the first pattern that gives one |
| `Dates.FilenameDate` | photos_sync/utils/dates.py:56-65 | every result is a real calendar datetime of 1970-2099 |
| `Dates.Search` | photos_sync/utils/dates.py:49-51 | a search finds the leftmost match, and only if there is one |
| `Dates.IsoTextRoundTrips` | photos_sync/repository.py:93-111 | text and timestamps convert back and forth without loss |
| `Dates.StampIsRecovered` | photos_sync/utils/dates.py:19-65 | a datetime written as YYYYMMDD_HHMMSS after a digit-free prefix is recovered exactly |
| `Dates.CameraNameIsRecovered` | photos_sync/utils/dates.py:38-41 | in particular from whole camera file names |
| `DateShapes.StampWithAnyTimeIsRecovered` | photos_sync/utils/dates.py:21-62 | YYYYMMDD_HHMMSS with any digits for the time is that time, or midnight of the day if there is no such time |
| `DateShapes.StampBehindLettersIsRecovered` | photos_sync/utils/dates.py:23 | when the first stamp of a name is no date, one behind letters and an underscore is still found |
| `DateShapes.StampBehindOthersIsNotFound` | photos_sync/utils/dates.py:23 | behind anything but a letter and an underscore it is not found, and the name has no date |
| `DateShapes.DashedTimeIsRecovered` | photos_sync/utils/dates.py:27-63 | YYYY-MM-DD-HH-MM-SS is that time, or midnight, for every day of 1970-2099, after a digit-free prefix |
| `DateShapes.SpacedTimeIsRecovered` | photos_sync/utils/dates.py:29-63 | the same for YYYY-MM-DD HH.MM.SS with each of its separators |
| `DateShapes.CompactDayIsRecovered` | photos_sync/utils/dates.py:31-64 | YYYYMMDD with nothing like a time behind it is midnight of that day |
| `DateShapes.CalendarIff` | photos_sync/utils/dates.py:62-64 | the datetimes that are accepted are those of the Gregorian calendar, month by month and with leap years |
| `DateShapes.FormIsText` | photos_sync/repository.py:93-111 | what is read as a canonical date is the text of the datetime read |
| `DateShapes.ReadWithMoreBehind` | photos_sync/utils/dates.py:11-15 | more text behind a date does not change what is read, and the separator has to be `T` or a space |
| `ExifCache.ClassifyOne` | photos_sync/pipeline/classify.py:133-217 | tags and position of one capture, given its metadata |
| `ExifTags.ShapeTagsIff` | photos_sync/pipeline/classify.py:196-208 | a picture gets "panorama" if and only if it is at least twice as wide as high, else "portrait" or "landscape_photo" by its longer side, and "screenshot" by its size without raw data |
| `ExifTags.ImageTagsIff` | photos_sync/pipeline/classify.py:163-186 | "no_exif", "has_gps" and "camera" say what the image of an existing file holds |
| `ExifTags.ExtensionTagsIff` | photos_sync/pipeline/classify.py:146-152 | the extension, with or without dots and in any case, decides on "gif", "video" and "web_image" |
| `ExifTags.OtherIff` | photos_sync/pipeline/classify.py:213-215 | a capture always has a tag, and "other" only where there is no other; it keeps those it had |
| `ExifCache.Catalogue.ClassifyCaptures` | photos_sync/pipeline/classify.py:255-305 | the scan reads exactly the changed files, tags every capture from its record and stores the new records |
| `ExifCache.ReuseIsInvisible` | photos_sync/pipeline/classify.py:256-305 | over any history in which path and time determine content, captures are the same as with every file read every time, and every error-free stored row stays a correct extraction |
| `ExifHistory.ReuseIsSafeIff` | photos_sync/pipeline/classify.py:261-279 | for every list of edits with a scan after each: captures are the same as with every file read every time, whatever the rules, captures and times, if and only if no file changes between two scans and keeps its modification time |
| `ExifHistory.StaleEditShows` | photos_sync/pipeline/classify.py:266-275 | inputs: for every such edit a capture and rules with which reuse shows the old position and a full read the new one |
| `ExifCache.SecondScanOnlyRetriesFailures` | photos_sync/pipeline/classify.py:261-295 | a second scan of unchanged files reads exactly those whose extraction fails and changes no capture |
| `ExifCache.JobsAre` | photos_sync/pipeline/classify.py:261-279 | exactly the changed captures are read, each once |
| `ExifCache.StoreEntries` | photos_sync/repository.py:314-356 | storing records replaces the row of each capture in them |
| `LogStream.LogBroadcaster.Emit` | photos_sync/web_server.py:93-103 | one more line in the buffer, cut to 2000, and the same line at the end of every queue |
| `LogStream.LogBroadcaster.AppendLine` | photos_sync/web_server.py:95-98 | the locked half of an emit |
| `LogStream.BufferIsAlwaysTheTail` | photos_sync/web_server.py:93-118 | in every interleaving the buffer is the last min(2000, n) of the n lines since the last clear |
| `LogStream.NoLineIsMissed` | photos_sync/endpoints/ws_log.py:26-34 | in every interleaving a client that subscribed and replayed misses no line unless it was cleared or evicted before the replay |
| `LogStream.QueuesHoldLinesOnce` | photos_sync/web_server.py:99-103 | no queue gets a line twice |
| `LogStream.QueueGetsExactly` | photos_sync/web_server.py:93-109 | the queue of a connected client gets exactly the lines emitted after it subscribed and those being emitted then |
| `LogStream.NothingAfterLeaving` | photos_sync/web_server.py:93-118 | after a client has unsubscribed, its queue gets no line that is emitted later, however the steps interleave |
| `LogStream.TwiceIff` | photos_sync/endpoints/ws_log.py:27-34 | a client gets a line twice if and only if its replay holds it and it is one of these |
| `LogStream.QueuesInOrderIff` | photos_sync/web_server.py:93-103 | queues keep the order of the log in all runs if and only if emits do not overlap |
| `LogStream.OverlappingEmitsReorder` | photos_sync/web_server.py:99-103 | an input: two overlapping emits whose lines a queue gets in the wrong order |
| `Trash.TrashBin.BulkDelete` | photos_sync/endpoints/bulk_action.py:51-78 | the loop moves each existing photo to the trash and records it, whichever operations raise, and counts successes and errors |
| `Trash.TrashBin.RestoreFromTrash` | photos_sync/endpoints/restore_from_trash.py:21-43 | the loop moves files back beside whatever took their place, drops stale entries, and counts successes and errors |
| `Trash.TrashBin.PermanentlyDelete` | photos_sync/endpoints/permanently_delete.py:18-32 | the loop destroys files and entries, and counts successes and errors |
| `Trash.TrashBin.GetTrash` | photos_sync/endpoints/get_trash.py:23-54 | the migration and recovery of each entry, up to the first exception |
| `Trash.TrashBin.MigrateOne` | photos_sync/endpoints/get_trash.py:25-54 | one entry, whichever operation raises |
| `Trash.MoveKeepsContents` | photos_sync/endpoints/bulk_action.py:65 | a move keeps all contents if and only if its target is free |
| `Trash.DeleteKeepsContents` | photos_sync/endpoints/bulk_action.py:59-63 | deleting keeps all contents if and only if the trash name or the fallback name is free |
| `Trash.RestoreKeepsContents` | photos_sync/endpoints/restore_from_trash.py:34-38 | restoring keeps all contents if and only if the old place or the fallback name is free |
| `TrashNames.FallbackIs` | photos_sync/endpoints/restore_from_trash.py:35-37 | a fallback keeps folder, stem and extension, with "_" and the tag behind the stem |
| `TrashNames.CountedIffDone` | photos_sync/endpoints/restore_from_trash.py:21-43 | what is counted as done is what took an entry from the table or put one in, and a restore without a file is an error |
| `TrashNames.CountedOnce` | photos_sync/endpoints/bulk_action.py:51-78 | the counters of a request are the numbers of its items that were done, or raised, when their turn came |
| `TrashNames.FallbacksAreApart` | photos_sync/endpoints/restore_from_trash.py:35-37 | in one folder different photo names have different fallbacks for one tag |
| `TrashNames.TagsAreApart` | photos_sync/endpoints/bulk_action.py:60-62 | different tags give different paths |
| `TrashNames.OddNamesShareAFallback` | photos_sync/endpoints/restore_from_trash.py:35-37 | inputs: two names, one of which ends in a dot, with one fallback |
| `TrashNames.DeletePuts` | photos_sync/endpoints/bulk_action.py:57-75 | a delete moves the photo to its name in its trash folder or, if that is taken, to `stem_inode.suffix`, records where it was and is, and changes nothing else |
| `TrashNames.RestorePuts` | photos_sync/endpoints/restore_from_trash.py:33-40 | a restore moves the file back or, if the place is taken, to `stem_restored.suffix`, drops the entry, and changes nothing else |
| `TrashNames.MigrationPuts` | photos_sync/endpoints/get_trash.py:28-37 | a listing moves a file from the old folder to the trash folder of its photo, under its name or with the id |
| `TrashNames.RecoveryPuts` | photos_sync/endpoints/get_trash.py:39-54 | a listing copies the original of an entry without a file, under the recorded name or with the id |
| `TrashNames.TwoRestoresKeepAllFour` | photos_sync/endpoints/restore_from_trash.py:21-43 | two photos restored beside new ones: all four keep their contents if the two names `stem_restored.suffix` are free |
| `TrashNames.SecondRestoreReplacesFirst` | photos_sync/endpoints/restore_from_trash.py:34-38 | inputs: of two photos of one path restored beside a new one, the second replaces the first |
| `Trash.OpKeepsOneToOne` | photos_sync/endpoints/get_trash.py:28-37 | with a free fallback name, each of the four requests keeps entries and trash files in one-to-one correspondence if and only if the database does not fail after the file operation |
| `Trash.HalfDoneIsNoticed` | photos_sync/endpoints/get_trash.py:34-35 | a half-done delete leaves a trash file without an entry, a half-done restore or purge an entry without its file, and a half-done migration both |
| `Trash.RunsKeepOneToOne` | photos_sync/endpoints/permanently_delete.py:18-32 | over any run of requests with free fallback names, none left half done: one-to-one correspondence |
| `Trash.OpAccountsForContents` | photos_sync/endpoints/permanently_delete.py:22-25 | each request in each state, failing or not, accounts for every content |
| `Trash.RunsAccountForContents` | photos_sync/endpoints/bulk_action.py:51-78 | over every run, whichever operations raise: what there was and what recoveries copied is what is left, what was permanently deleted and what was replaced |
| `Trash.OnlyDeletesDestroyIff` | photos_sync/endpoints/restore_from_trash.py:34-38 | in every run nothing but permanent deletes removes a content if and only if no fallback name was taken |
| `Trash.ListingServesAll` | photos_sync/endpoints/get_trash.py:23-54 | one listing that does not raise gives a file again to every entry whose original exists |
| `Trash.RecoveryKeepsApartIff` | photos_sync/endpoints/get_trash.py:46-52 | a recovery keeps entries apart if and only if no other entry records the path it chooses |
| `Trash.RecoveredFileIsShared` | photos_sync/endpoints/get_trash.py:46-52 | an input: two entries that end up with one file |
| `Trash.OtherKeepsItsFileIff` | photos_sync/endpoints/restore_from_trash.py:21-40 | restoring or purging one entry leaves another its file, with its content, if and only if they do not share it |
| `Trash.SecondRestoreFindsNothing` | photos_sync/endpoints/restore_from_trash.py:27-31 | when they do, the second restore finds nothing and drops the entry |
| `Trash.RestoreUndoesDelete` | photos_sync/endpoints/restore_from_trash.py:25-40 | delete, then restore to a free path, gives back the same files and entries |
| `Trash.RestoreBesideANewPhoto` | photos_sync/endpoints/restore_from_trash.py:34-38 | a photo that took the path meanwhile survives the restore, and so does the restored one, as `stem_restored.suffix` |
| `Lockout.LoginGuard.TryLogin` | photos_sync/endpoints/login.py:25-31 | a login is refused while locked, else it clears or records, and no other name is affected |
| `Lockout.CounterIsExact` | photos_sync/web_server.py:327-335 | the counter is the number of failed checks since the last success or unlock |
| `Lockout.LockedExactly` | photos_sync/web_server.py:316-331 | a login is refused if and only if the name has ten failures and the latest is younger than 15 minutes |
| `Lockout.OneMoreEvent` | photos_sync/web_server.py:316-335 | in terms of the entry: a wrong password is counted and from the tenth time on locks the name for 900 seconds, a right one and an unlock forget all failures, and a login while locked changes nothing |
| `Lockout.OneRequestIsALogin` | photos_sync/endpoints/login.py:25-31 | a request of the overlapping model that is checked and decided at once is a login of the sequential one |
| `Lockout.FailuresAreSpaced` | photos_sync/web_server.py:327-331 | from the tenth on, failures are at least 15 minutes apart |
| `Lockout.GuessesAreBounded` | photos_sync/web_server.py:302-331 | failed checks up to time t number at most 10 + floor((t - time of the tenth) / 900) |
| `Lockout.LocksHoldBack` | photos_sync/web_server.py:316-331 | with at most w requests between check and record, w failures after a lock at least 15 minutes have passed |
| `Lockout.OverlappingGuessesAreBounded` | photos_sync/web_server.py:316-331 | then failed checks up to time t number at most 9 + w (1 + floor((t - time of the tenth) / 900)) |
| `Lockout.BoundIsAttained` | photos_sync/web_server.py:316-331 | inputs: for every w a run that reaches this number |
| `Lockout.SequentialBoundIff` | photos_sync/web_server.py:316-331 | the bound of sequential requests holds in all runs if and only if at most one request is between check and record |
| `Lockout.ElevenAtOnceExceedTheBound` | photos_sync/web_server.py:316-331 | an input: eleven requests all checked before the tenth failure is recorded |
| `LockoutAccounts.SharedCounterIff` | photos_sync/endpoints/login.py:25-26 | requests for one account share a counter if and only if they spell its name alike, white space included |
| `LockoutAccounts.AccountIsBoundedIff` | photos_sync/web_server.py:316-331 | for names of one account: in every run of guesses with these names the guesses at the account keep to the bound for one name if and only if there is only one name |
| `LockoutAccounts.EleventhGuessPasses` | photos_sync/web_server.py:316-331 | inputs: ten guesses under one spelling and one under another |
| `LockoutAccounts.SpacedNameHasOwnCounter` | photos_sync/web_server.py:317 | inputs: every name, and the name with a space in front |

## Left out

- HTTP, SFTP, XML, SQL syntax, metrics and thread pools as objects; their answers are inputs and their interleavings are steps.
- Image decoding is one function from content to metadata, SHA-1 one function from href to eight hexadecimal digits.
- GPS positions come as pairs; a record with a latitude and no longitude is not modelled.
- Case folding covers ASCII letters, `\d` in file-name patterns covers ASCII digits, and whitespace around dates is not stripped; `fromisoformat` and `strptime` on other forms than the canonical one are a parameter.
- Microseconds, time zones and size rounding; `dayOf` is one abstract function of the modification time, and whether `get_days` treats 0 as undated is not compared with it.
- Dialects other than PostgreSQL and SQLite, whose fallback does not preserve favourites; on SQLite a chunk is written row by row, which the chunk theorem covers.
- Favourites, albums, users, SSH, folders, summaries, thumbnails and ZIP streaming, which would only add easy members.
- `download_to_local` and `sync_webdav_connection`, an older path without resumption.
- Transfers of two files with the same local path: `Ingestion.Do` opens the part file in one step, so races on one path appear only between steps.
- The size of the download thread pool: any number of transfers may be active at once.
- A scan that raises: it ends its job with nothing listed, as in `JobGuard`, where a job may finish before it discovers anything.
- A thread that cannot be started leaves a job flag set; that failure is not modelled.
- The process may stop anywhere in `IngestionFiles.CrashesDoNoHarm`; a torn write inside one chunk is not modelled.
- ExifCache.Catalogue.ClassifyCaptures: writing the captures back goes through an upsert, which is taken to store them as they are; its effect on dates is that of `CaptureStore.UpsertKeepsDates`.
- ExifCache.Catalogue.ClassifyCaptures: an extraction takes a file's time and content in one step, while the source takes the time first and opens the file afterwards, so an edit in between is not modelled.
- ExifCache.ClassifyOne: tags are a set, not the sorted list, and the filename and path rule tables are parameters.
- Trash.TrashBin.BulkDelete: the check that a path is allowed, which precedes the loop, and errors raised while the trash folder is created.
- Trash.TrashBin.GetTrash: the permission check before a recovery is taken to hold; the listing it returns and copies that stop half way are left out.
- Trash.TrashBin.RestoreFromTrash: a database error while a stale entry is dropped, which ends the whole request.
- Gallery.LoadPhotosPage: sizes, tags and positions of a photo are copied through by the source and not modelled.
- Lockout.LoginGuard.TryLogin: password hashing, sessions and the per-address limiter, which allows ten attempts a minute where the docstring of `login` says five.
- Lockout.OverlappingGuessesAreBounded: recording a failure is one step, while the source reads and writes the entry without a lock, so lost updates are not modelled.
- LogStream.LogBroadcaster.Emit: an exception from a full queue, which an unbounded queue does not raise.
