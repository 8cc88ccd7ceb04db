# PS5 Upload: verified core logic

PS5 Upload moves packages, files and cheats to a console. Most of it is I/O; the parts below are
the algorithms and protocols that everything else relies on, modelled in Dafny with what they
promise proved for every input, every run or every reachable state.

- **Matching and parsing.** The one-backtrack glob of the file index (`IndexGlob`), the
  outermost-key lookup in cheat files (`CheatsJson`), the JSON string escaper and its decoder
  (`JsonText`, `JsonStrings`), and the marker search over a file read block by block (`MarkerScan`).
- **Binary formats.** The AVA1 message codecs, their lists, and the reader and writer they run on
  (`Ava1`, `Ava1Lists`, `Ava1Messages`, `Ava1Reader`, `Ava1Writer`); the app.db reader, the texts it
  takes for names and the database files it reads (`AppDbScan`, `AppNames`, `SqliteDb`,
  `SqliteSpill`, `SqlitePages`); the search
  for SDK words in a bare ELF or a fake-signed SELF (`ElfParam`, `ElfWrap`,
  `ElfFiles`).
- **Protocols.** The bounded-wait initializer in its two copies (`TimedInit`), the two sensor
  readers (`HwBgRead`, `HwTempsFlight`), the SIGPIPE window (`SigpipeGuard`) and the atomic file
  replace with a crash allowed anywhere (`AtomicFile`). Each stretch that holds a mutex, or each
  system call, is one step; any number of threads and any order of steps is a run.
- **Data structures and schedulers.** The bounded interval set of served bytes (`Coverage`), the
  Range parser that feeds it (`HttpRange`), the ring of job statuses (`JobRing`), the import walk of
  a guest page (`PageFiles`) and the reply packer of the release posts (`ReplyPacker`).

State that the program updates in place is a class here (the coverage array, the ring, the reader,
the writer, the marker carry, the fields under each mutex), and its loops are methods with
invariants; each is proved against a function, and what the program promises is proved about that
function.

`dafny verify dfyconfig.toml` checks the whole project.

## Where the code and its comments differ

The model follows the code. Each difference has a lemma with a concrete case and one that says
exactly when the comment holds.

- `inst_coverage_add` says it re-derives the insert position after coalescing, but only clamps it.
  At 256 intervals, freshly served bytes can be dropped (`Coverage.ServedByteDropped`); they are
  kept if and only if the condition of `Coverage.ServedBytesKeptIff` holds. A whole file can be
  served without the set ever being complete (`Coverage.WholeFileServedNotComplete`).
- A full set joins a gap, and so can be complete before every byte was served
  (`Coverage.CompleteThoughNotServed`); while it is never full, it is exact (`Coverage.NeverFullIsExact`).
- The header says a full set coalesces for a disjoint range only; the code does so for any
  (`Coverage.OverlapStillCoalesces`). Nothing extra is covered if and only if the condition of
  `Coverage.NothingExtraIff` holds.
- With an end at the last 64-bit value, which no file offset reaches, overlaps stay
  (`Coverage.LastU64Overlaps`, `Coverage.MergeTestRightIff`).
- The shared timed initializer can report a timeout after a published success
  (`TimedInit.SharedCopyTimesOutAfterSuccess`), and fails a call whose clock read fails even then
  (`TimedInit.CallAfterSuccessReturnsZeroIff`); the installer's copy does neither, and the two differ
  on exactly these kinds of step (`TimedInit.CopiesDifferExactly`).
- The text check of the app.db reader is described as printable UTF-8 but lets over-long forms,
  surrogates, values past U+10FFFF and the control characters U+0080 to U+009F through
  (`AppDbScan.CleanButNotUtf8`, `AppDbScan.CleanButNotPrintable`, `AppDbScan.PrintableIffClean`).
- A title id is said to be no name. One with a space after it is taken for one
  (`AppNames.PaddedIdIsAName`); `AppNames.NoOtherShapeIsAName` has the exact case.
- Callers of a timed initializer are said to wait for one attempt. When a later call finds no
  thread before a waiter runs again, that waiter gets -1 whatever its attempt gave (`TimedInit.WaiterMayMissItsResult`);
  `TimedInit.EveryCodeMeans` says which result every call gets.
- The app.db reader says it skips rows that spilled onto overflow pages. The buffer being the whole
  file, it skips them if and only if their payload would end past it
  (`SqliteSpill.SpilledIsSkippedIff`), and reads the others on through unrelated bytes
  (`SqliteSpill.CutNameIsMisread`); their entry can be relied on if and only if what it is made of is
  in the cell (`SqliteSpill.SpilledIsRightIff`). A length whose 64-bit end wraps into the buffer is
  read too (`SqliteDb.WrappedPayloadIsRead`, `SqliteDb.SpillRefusedIff`).
- The bound checks on an ELF's headers wrap in 64 bits, so the code can read outside the file or
  report a word outside it (`ElfFiles.WrappedEndStrays`, `ElfFiles.WildTable`,
  `ElfFiles.LastBytesDecide`); the exact condition is `ElfParam.StaysInsideIff` with
  `ElfParam.WildIff`.
- Only the lower-case range unit is recognised (`HttpRange.UnitSpellingIff`).
- `inst_ring_put` is said to update in place if the id exists. It does if and only if the id has 1 to
  63 bytes (`JobRing.UpdatesInPlaceIff`, `JobRing.CutIdAnswersForAnother`).
- `atomic_file_write` says the temp is gone after a failure. It leaves a stale one when its open
  fails and the new one when its unlink does (`AtomicFile.FailedOpenLeavesAStaleTemp`,
  `AtomicFile.FailedUnlinkLeavesTheTemp`); `AtomicFile.ReturnedOutcome` has the exact condition.
- A stall report is said to name the getter a read has been in. It may name one of a previous read
  (`HwTempsFlight.StallMayNameAnEarlierCall`); it names the read's own if and only if that read had
  entered one (`HwTempsFlight.ReportNamesItsOwnCallIff`).

## Model

| member | source | states |
|---|---|---|
| `IndexGlob.Match` | payload/include/index_glob.h:12-35 | the loop with one backtrack point answers true if and only if the whole name matches by the recursive meaning of `*`, `?` and case-folded bytes, in at most (pattern + 1) * (name + 1) rounds |
| `IndexGlob.PeelAligned` | payload/include/index_glob.h:23-27 | a star-free stretch of pattern matches exactly when it agrees with the name byte by byte and the remainders match |
| `IndexGlob.StarMeaning` | payload/include/index_glob.h:16-22 | a star matches if and only if the rest of the pattern matches from some later place of the name |
| `IndexGlob.StarRun` | payload/include/index_glob.h:17 | consecutive stars mean one star |
| `IndexGlob.ForgetEarlierStar` | payload/include/index_glob.h:16-22 | once the stretch between two stars is aligned at its earliest place, forgetting the first star loses no match and adds none |
| `IndexGlob.GiveUpStart` | payload/include/index_glob.h:28-31 | a mismatch after the aligned stretch rules out exactly that start, so moving `resume` by one is enough |
| `IndexGlob.EndOfName` | payload/include/index_glob.h:15-34 | at the end of the name a match is left if and only if the rest of the pattern is stars |
| `IndexGlob.EmptyName` | payload/include/index_glob.h:33-34 | the empty name is matched exactly by patterns of stars only |
| `IndexGlob.StarlessIff` | payload/include/index_glob.h:9-35 | a pattern without `*` matches exactly the names of its length that agree with it byte by byte, up to `?` and the case of ASCII letters |
| `IndexGlob.OneStarIff` | payload/include/index_glob.h:9-35 | with one `*` the name begins with the part before it and ends with the part after it, without overlap |
| `IndexGlob.StarredIff` | payload/include/index_glob.h:9-35 | parts after stars stand in the name one behind the other, the last one at its end |
| `IndexGlob.PatternIff` | payload/include/index_glob.h:1-5 | what any pattern means, cut at its stars: the first part begins the name and the others stand behind it in order, without overlap, the last one at the end |
| `Coverage.Position` | payload/installer/jobs.c:65-66 | the insert position: every interval before it starts earlier than the new range, the one at it does not |
| `Coverage.SmallestGap` | payload/installer/jobs.c:49-54 | the chosen pair has the least gap of all neighbour pairs and is the first such |
| `Coverage.MergeSorted` | payload/installer/jobs.c:76-86 | on intervals sorted by start the merge pass covers exactly the same bytes with separated intervals |
| `Coverage.InsertSorted` | payload/installer/jobs.c:72-86 | inserting where starts stay sorted and merging gives a well-formed set covering exactly the union |
| `Coverage.JoinCovers` | payload/installer/jobs.c:55-59 | joining a pair keeps the set well formed, one shorter, and adds exactly the bytes of the gap |
| `Coverage.CoalesceCovers` | payload/installer/jobs.c:46-60 | the same for the smallest gap |
| `Coverage.AddIsUnionBelowCap` | payload/installer/jobs.c:62-87 | below 256 intervals the result covers exactly the union of the set and the new range |
| `Coverage.AddRederivedAtCap` | payload/installer/jobs.h:48-53 | with the position re-derived, at the cap the result is the union plus the smallest gap |
| `Coverage.AddAtCapInPlace` | payload/installer/jobs.c:66-71 | the code as written gives that too when the joined pair does not lie before a non-final position |
| `Coverage.MergeDropsEarlyStart` | payload/installer/jobs.c:76-86 | an interval placed after one that starts later loses exactly its part before that start |
| `Coverage.AddAtCapMisplaced` | payload/installer/jobs.c:66-71 | otherwise the set stays well formed, keeps all it had, and drops of the new range exactly the bytes before the next interval's start that nothing else covers |
| `Coverage.AddExact` | payload/installer/jobs.c:62-87 | one equation, byte by byte, for what any call leaves covered, at the cap or not |
| `Coverage.ServedBytesKeptIff` | payload/installer/jobs.c:62-87 | all new bytes are recorded if and only if the set was not full, or the position was right, or the next interval starts with them, or the one before already holds them |
| `Coverage.NothingExtraIff` | payload/installer/jobs.h:48-53 | a call covers nothing but the set and the range if and only if the set was not full or the range itself spans the smallest gap |
| `Coverage.OverlapStillCoalesces` | payload/installer/jobs.c:67-71 | a full set coalesces for a range it already holds and then covers byte 9, which was never served |
| `Coverage.DroppedByte` | payload/installer/jobs.c:66-71 | in every other case a byte of the new range that was not covered exists before the next start |
| `Coverage.ServedByteDropped` | payload/installer/jobs.c:66-71 | a full set, reached by a run, on which byte 1005 is served and not recorded, though the re-derived position records it |
| `Coverage.EverySetIsReached` | payload/installer/jobs.c:62-87 | every well-formed set, `FullSet()` included, is what serving its own intervals in turn leaves |
| `Coverage.MisplacedLeavesRoom` | payload/installer/jobs.c:76-86 | a misplaced interval is always swallowed by the merge, so the set is not full afterwards |
| `Coverage.WholeFileServedNotComplete` | payload/installer/jobs.c:37-40 | a run that serves every byte of a 4096-byte file and leaves a set without byte 1005: not complete, and the next install is held back until the job stalls |
| `Coverage.CompleteThoughNotServed` | payload/installer/jobs.c:67-71 | a run that never serves byte 9 of a file and leaves a complete set, so that the job is released |
| `Coverage.CoversAllIsComplete` | payload/installer/jobs.c:96-99 | a well-formed set inside the file that covers all of it is complete |
| `Coverage.NeverFullIsExact` | payload/installer/jobs.h:48-53 | in a run in which the set is never full when a range comes, exactly the served bytes are covered |
| `Coverage.MergeTestRightIff` | payload/installer/jobs.c:79 | the 64-bit merge test is right if and only if the end is not the last 64-bit value or the start is 0 |
| `Coverage.LastU64Overlaps` | payload/installer/jobs.c:79 | a stored end at the last 64-bit value makes the merge test wrap and leaves an overlap |
| `Coverage.AddLength` | payload/installer/jobs.c:62-87 | at most 256 intervals for any input at all |
| `Coverage.RunWellFormed` | payload/installer/jobs.h:48-53 | every run keeps the intervals sorted, disjoint, non-adjacent and at most 256 |
| `Coverage.RunNeverForgets` | payload/installer/jobs.h:48-53 | a byte covered at some point of a run is covered at every later point |
| `Coverage.CoverageSet.Reset` | payload/installer/jobs.c:42-44 | the set becomes empty |
| `Coverage.CoverageSet.FindSmallestGap` | payload/installer/jobs.c:49-54 | the scanning loop, 64-bit gaps included, finds the first smallest gap |
| `Coverage.CoverageSet.CoalesceSmallestGap` | payload/installer/jobs.c:46-60 | the array afterwards holds the set with that pair joined |
| `Coverage.CoverageSet.InsertAt` | payload/installer/jobs.c:72-75 | shifting the tail right in place inserts the interval and moves nothing else |
| `Coverage.CoverageSet.MergePass` | payload/installer/jobs.c:76-86 | the in-place pass with separate read and write indices computes the merge |
| `Coverage.CoverageSet.AddRange` | payload/installer/jobs.c:62-87 | the whole call turns the contents into the specified set, for any contents and any range, reversed ones included |
| `Coverage.CoverageSet.Bytes` | payload/installer/jobs.c:89-94 | the sum of the lengths, modulo 2^64 |
| `Coverage.CoverageSet.Complete` | payload/installer/jobs.c:96-99 | true if and only if one interval spans the file |
| `Coverage.BytesBound` | payload/installer/jobs.c:89-94 | the byte sum is less than the span by at least one byte per gap |
| `Coverage.BytesReachTotalIff` | payload/installer/jobs.c:89-99 | within a file the sum never exceeds its size (so it never wraps) and reaches it if and only if the set is complete |
| `Coverage.AddWithin` | payload/installer/jobs.c:62-87 | a range inside the file keeps every stored interval inside it, gap filling included |
| `Coverage.RunWithin` | payload/installer/jobs.c:62-99 | both facts over every run of ranges of the file |
| `Coverage.AdmittedIffComplete` | payload/installer/jobs.c:18-40 | for a serving job that has not stalled, the next install is admitted if and only if the set is complete |
| `Coverage.CompleteIff` | payload/installer/jobs.c:96-99 | complete if and only if every byte of the file is covered, the empty file included |
| `Coverage.BytesAreCovered` | payload/installer/jobs.c:89-94 | the byte sum is the number of bytes covered, each counted once |
| `Coverage.AdmitsIff` | payload/installer/jobs.c:18-40 | the next install is let in if and only if no job is serving, or every byte of its file is covered, or it has been idle for 300 seconds or more |
| `JobRing.Find` | payload/installer/jobs.c:111-115 | the first slot holding the id, none before it; none at all when nothing is returned |
| `JobRing.PutIsQueuePut` | payload/installer/jobs.c:117-134 | one put, for any id, is one put on a queue of 16, oldest first: an entry that has the id is restated where it is; otherwise the id as it can be stored is appended and a full queue loses its oldest |
| `JobRing.PushAppends` | payload/installer/jobs.c:124-127 | writing at the cursor and stepping it modulo 16 drops the oldest and appends the newest |
| `JobRing.FindsWhatTheQueueHolds` | payload/installer/jobs.c:111-115 | searching the slots finds an id if and only if the queue holds it |
| `JobRing.FoundIffAmongTheLastSixteen` | payload/installer/jobs.h:84-91 | after any run at all, a query finds exactly the non-empty ids among the last 16 to come in |
| `JobRing.GetIsLatestOfTheLastSixteen` | payload/installer/jobs.h:84-91 | after any run, a query for an id that no longer one was cut to answers with the last status put under it when it is non-empty and among the last 16 to come in, and with nothing otherwise |
| `JobRing.CutIdAnswersForAnother` | payload/installer/jobs.c:127 | an id of 64 bytes is stored cut: its first 63 bytes answer for it, and it is not found itself |
| `JobRing.LogStep` | payload/installer/jobs.c:117-134 | a put on the ring is a put on an unbounded log of arrivals, the ring being its last 16 by slot |
| `JobRing.GetAnswersFromTheLog` | payload/installer/jobs.c:111-146 | what a query answers after any run, for any id, cut ones included: the status now held by the arrival in the lowest slot among the last 16 stored under it |
| `JobRing.PutThenGetIff` | payload/installer/jobs.c:117-146 | what was just put is found if and only if its id has 1 to 63 bytes |
| `JobRing.UpdatesInPlaceIff` | payload/installer/jobs.h:84-85 | a second put of an id leaves the cursor where it was, and the ring as if only the second had been made, if and only if the id has 1 to 63 bytes; otherwise it takes a new slot |
| `JobRing.Jobs.RingFind` | payload/installer/jobs.c:111-115 | the loop computes that search |
| `JobRing.Jobs.RingPut` | payload/installer/jobs.c:117-134 | the arrays, cursor and count afterwards are those of the specified put, and the slot returned is the one written |
| `JobRing.Jobs.RingGet` | payload/installer/jobs.c:136-146 | the status in the found slot, or none |
| `HttpRange.ParseRange` | payload/installer/http_range.c:11-48 | an accepted range is non-empty and lies inside the file, for any header text at all |
| `HttpRange.ParsesEverySpec` | payload/installer/http_range.c:11-48 | for every single byte-range of section 14.1.2 of RFC 9110 with the unit in lower case, its positions any runs of digits, leading zeros and values past 64 bits included: the bytes sent are exactly those it selects, and it is unsatisfiable exactly when it selects none |
| `HttpRange.UnitSpellingIff` | payload/installer/http_range.c:14-15 | of the spellings of the unit, which section 14.1 of RFC 9110 has case-insensitive, a range is answered if and only if it is the lower-case one; any other is answered with the whole file |
| `HttpRange.ReadDigits` | payload/installer/http_range.c:26-38 | `strtoull` reads any run of digits to its value, saturated at 64 bits, and stops right after it |
| `HttpRange.DecimalFolds` | payload/installer/http_range.c:26-38 | every number has a run of digits of that value |
| `HttpRange.ListsAreIgnored` | payload/installer/http_range.c:17-18 | two or more ranges are answered with the whole file |
| `HttpRange.Chunks` | payload/installer/loopback.c:198-211 | every chunk recorded lies in the range being sent |
| `HttpRange.ChunksCover` | payload/installer/loopback.c:198-211 | a body that is not cut short records exactly its range |
| `HttpRange.ServingAgrees` | payload/installer/loopback.c:170-212 | over every run of requests, whatever their headers, recorded chunk by chunk by any number of workers in any order and cut short anywhere: coverage stays in the file, its sum is at most the size and reaches it exactly when complete, and a live job is released exactly then |
| `HttpRange.WholeFileIsRecorded` | payload/installer/loopback.c:170-212 | a request that is not cut short and has no Range header, no `bytes=` in it, or a list records exactly byte 0 to the last |
| `HttpRange.RangeIsRecorded` | payload/installer/loopback.c:170-212 | one with a single range records exactly the bytes that range selects |
| `HttpRange.HeadRecordsNothing` | payload/installer/loopback.c:193 | a HEAD request records nothing |
| `HttpRange.FullTurns` | payload/installer/loopback.c:198-211 | when every read gives what it was asked for, the chunks are of 1 MiB each, the last one shorter |
| `HttpRange.NoDashNoRange` | payload/installer/http_range.c:19-20 | a header without a dash after the unit asks for nothing |
| `HttpRange.JunkNoRange` | payload/installer/http_range.c:34-35 | nor does one whose text before the dash begins with anything but a blank, a sign or a digit |
| `HttpRange.ReadsSigned` | payload/installer/http_range.c:26-38 | `strtoull` takes any blanks and a sign before its digits: a minus negates in 64 bits, a value past them saturates |
| `TimedInit.StepKeepsInv` | payload/installer/inst_timed_init.h:70-156 | every critical section of either copy keeps: exactly one worker while RUNNING and none otherwise, the function its starter passed, DONE with 0 if and only if a success was published |
| `TimedInit.OneInitializerAtATime` | payload/installer/inst_timed_init.h:107-137 | in every run at most one initializer is live, the phase is RUNNING exactly while one is, and it runs its starter's function |
| `TimedInit.SuccessIsPermanent` | payload/installer/inst_timed_init.h:4-18 | after a published 0, in every continuation, nothing starts again and every new call returns 0, except one with a null function and, in the shared copy, one whose clock read fails |
| `TimedInit.CallAfterSuccessReturnsZeroIff` | payload/include/timed_init.h:56-75 | a call after a success returns 0 if and only if it is the installer's copy or the clock could be read |
| `TimedInit.LateWakeStillSucceeds` | payload/installer/inst_timed_init.h:139-151 | a waiter of the installer's copy that wakes after success, even past its deadline, returns 0 |
| `TimedInit.InstallerTimesOutOnlyWhileRunning` | payload/installer/inst_timed_init.h:139-151 | in every run of the installer's copy a timeout is returned only while the attempt is RUNNING |
| `TimedInit.CopiesDifferExactly` | payload/include/timed_init.h:91-102 | the two copies take different steps if and only if a waiter's wait times out when the attempt is no longer RUNNING, or a call cannot read the clock |
| `TimedInit.SharedCopyTimesOutAfterSuccess` | payload/include/timed_init.h:91-102 | a run of the shared copy that returns a timeout after its own success |
| `TimedInit.EveryCodeMeans` | payload/installer/inst_timed_init.h:107-156 | in every run of either copy, a call that returned a result returned that of the attempt that had ended last before it: the value its worker published, or -1 when there was no thread for it; a cached 0 is a published 0, a deadline gives the timeout code, everything else -1 |
| `TimedInit.WaiterMayMissItsResult` | payload/installer/inst_timed_init.h:126-137 | a run in which the initializer of a waiting call gives -5 and the call returns -1, because a later call found no thread |
| `TimedInit.WakingMeans` | payload/installer/inst_timed_init.h:139-156 | after any wait: a waiter goes on exactly when woken while an attempt is live; with none live it returns the last result, but for a deadline in the shared copy |
| `TimedInit.CallMeans` | payload/installer/inst_timed_init.h:107-137 | a call returns 0 after a success, joins a live attempt, and otherwise, after any number of failed ones, starts a new one if a thread can be had, and returns -1 if not |
| `TimedInit.InitState.EnterSection` | payload/installer/inst_timed_init.h:117-137 | the fields, the verdict and whether a worker starts, as the step says |
| `TimedInit.InitState.WakeSection` | payload/installer/inst_timed_init.h:139-151 | one turn of the wait loop decides as the step says, per copy |
| `TimedInit.InitState.PublishSection` | payload/installer/inst_timed_init.h:70-81 | the result is stored and the phase set to DONE, whatever the result |
| `AtomicFile.StepKeepsInv` | payload/include/atomic_file.h:28-49 | every system call, with any outcome, and every storage event keeps the invariant that ties what is durable to how far the call is |
| `AtomicFile.CrashLeavesOldOrNew` | payload/include/atomic_file.h:4-8 | a crash at any point of any run, with short writes, EINTR and any order of persistence, leaves what it would have left before the call, the whole old file or the whole new one, also when the previous rename has not reached storage |
| `AtomicFile.ReturnedOutcome` | payload/include/atomic_file.h:26-49 | from any such start. Success: the target holds the new bytes and the temp is gone; failure: the target is untouched, and the temp is gone if and only if the unlink worked or, when the open failed, there was none |
| `AtomicFile.ZeroIffAllWorked` | payload/include/atomic_file.h:28-49 | a run that returned gave 0 if and only if its open, fsync, close and rename all worked and no write failed or wrote nothing, said of the outcomes of its calls |
| `AtomicFile.GoodCallsSave` | payload/include/atomic_file.h:28-49 | when every call works and every write writes at least a byte, the call returns 0 and the target holds the bytes |
| `AtomicFile.InterruptedIsRetried` | payload/include/atomic_file.h:36-38 | an interrupted write changes nothing and is made again |
| `AtomicFile.ReturnedIsReady` | payload/include/atomic_file.h:28-49 | a call that returned, with whatever result, leaves a disk from which the next call is as safe, though its rename need not be on storage |
| `AtomicFile.EveryCallLeavesAVersion` | payload/include/atomic_file.h:4-8 | after any number of calls the file as seen, and as a crash would leave it, are each one whole version |
| `AtomicFile.CrashLeavesAVersion` | payload/include/atomic_file.h:4-8 | a crash in the middle of any call after any number of calls leaves the whole bytes of some version |
| `AtomicFile.FailedOpenLeavesAStaleTemp` | payload/include/atomic_file.h:30-31 | a run whose open fails and leaves the temp of an earlier run |
| `AtomicFile.FailedUnlinkLeavesTheTemp` | payload/include/atomic_file.h:47 | a run whose write and then unlink fail and that leaves the new temp |
| `AtomicFile.WithoutFsyncAShortFile` | payload/include/atomic_file.h:4-8 | without the fsync there is a run that reports success and a crash that leaves an empty file |
| `AtomicFile.TempMustNotBeTheTarget` | payload/include/atomic_file.h:28-30 | if the temp is another name of the target, opening it already loses the old file |
| `AtomicFile.CallsAreARun` | payload/include/atomic_file.h:28-49 | the function's own calls are a run, so the two theorems apply to it |
| `AtomicFile.AtomicFileWrite` | payload/include/atomic_file.h:28-49 | the function performs exactly the specified sequence of calls for any answers of the kernel, stopped at any one |
| `AtomicFile.WriteAll` | payload/include/atomic_file.h:35-43 | the write loop with short writes, EINTR and errors |
| `AtomicFile.SyncAndClose` | payload/include/atomic_file.h:44-45 | fsync only after all bytes, close in every case |
| `AtomicFile.RenameOrUnlink` | payload/include/atomic_file.h:46-48 | rename only after no failure, unlink after any |
| `JsonText.EscapeInto` | payload/include/json_escape.h:9-26 | the buffer ends with a NUL inside it and holds the escapes of the longest prefix the loop's reserve allows; a buffer of no bytes is left alone |
| `JsonText.TakenFits` | payload/include/json_escape.h:12-22 | it never overruns, and stops short of the source's end only when fewer than three bytes were left |
| `JsonText.WholeSourceIff` | payload/include/json_escape.h:12-22 | the whole source is written if and only if two bytes and the NUL still fitted before its last byte |
| `JsonText.DecodeInto` | payload/include/cheats_json.h:61-99 | the output, NUL-terminated in its buffer, is the longest run of whole decoded pieces that fits |
| `JsonText.PieceAt` | payload/include/cheats_json.h:64-96 | one turn of the loop: a plain byte, a short escape, a `\u` escape or a surrogate pair, and how many bytes it takes |
| `JsonText.EscapedPieces` | payload/include/cheats_json.h:61-99 | escaped text is read as one piece per source byte |
| `JsonText.DecodeUndoesEscapeAll` | payload/include/cheats_json.h:61-99 | for every byte string and reader capacity the decoder gives the source back, control bytes shown as '?', cut only at the capacity |
| `JsonText.DecodeUndoesEscape` | payload/include/json_escape.h:4-26 | the same through the bounded escaper: a prefix never cut inside an escape, and the whole source when the capacities allow |
| `JsonText.Utf8IsRfc3629` | payload/include/cheats_json.h:35-56 | every scalar value is written as the one form section 3 of RFC 3629 gives it, read back by an independent strict decoder |
| `JsonText.UnitPieces` | payload/include/cheats_json.h:69-86 | any sequence of `\u` escapes reads as the UTF-8 of its UTF-16 text, with each lone surrogate and each zero as U+FFFD |
| `JsonText.DecodeUnits` | payload/include/cheats_json.h:61-99 | so the decoder writes as many of those characters as fit, none in part |
| `JsonText.ScalarsInRange` | payload/include/cheats_json.h:74-81 | no decoded character is a surrogate or zero |
| `JsonText.ScalarRoundTrip` | payload/include/cheats_json.h:61-99 | every non-zero scalar written as one or two `\u` escapes decodes to its UTF-8 |
| `JsonText.HexOfReadsBack` | payload/include/cheats_json.h:16-32 | four printed hex digits are read back |
| `JsonStrings.ShortEscapesMean` | payload/include/cheats_json.h:131-172 | the eight two-character escapes of section 7 of RFC 8259 decode to the characters of its table |
| `JsonStrings.UnknownEscapesMean` | payload/include/cheats_json.h:131-172 | any other letter after a backslash stands for itself, and so does a `u` without four hex digits |
| `JsonStrings.FourDigitsMean` | payload/include/cheats_json.h:131-172 | four hex digits of either case, most significant first |
| `JsonStrings.ReplacedMeans` | payload/include/cheats_json.h:131-172 | a lone surrogate and a zero become U+FFFD |
| `JsonStrings.BrokenPairMeans` | payload/include/cheats_json.h:131-172 | so does a high surrogate before a `\u` without four hex digits, and that is then read by itself |
| `JsonStrings.DecodesEveryString` | payload/include/cheats_json.h:131-172 | every string written with plain bytes, short escapes and runs of `\u` escapes decodes to what its parts stand for |
| `JsonStrings.Utf8ScalarIff` | payload/include/cheats_json.h:131-172 | the bytes written for a code point are read back by a strict decoder as that code point, and no other bytes are |
| `CheatsJson.SkipStringAt` | payload/include/cheats_json.h:131-141 | the position just past the closing quote, escapes skipped, or none when the text ends first |
| `CheatsJson.SkipWsAt` | payload/include/cheats_json.h:154-157 | the whitespace loop stops at the first other byte |
| `CheatsJson.TopValue` | payload/include/cheats_json.h:145-172 | the index loop with its depth counter computes the recursive scan, for any text |
| `CheatsJson.SkipsRaw` | payload/include/cheats_json.h:131-141 | every JSON string body of section 7 of RFC 8259 is skipped exactly |
| `CheatsJson.ScansValue` | payload/include/cheats_json.h:145-172 | any JSON value below the outermost object leaves the scan as it was |
| `CheatsJson.ScansMembers` | payload/include/cheats_json.h:145-172 | members of nested objects are never taken for outermost ones |
| `CheatsJson.ScansItems` | payload/include/cheats_json.h:145-172 | nor is anything inside an array |
| `CheatsJson.TopMembers` | payload/include/cheats_json.h:145-172 | over the members of the outermost object the scan lands on the first with the key |
| `CheatsJson.TopValueIsFirstMember` | payload/include/cheats_json.h:145-172 | for every JSON object tree, any whitespace between tokens and any bytes around it: the value of the first outermost member with that raw key, and nothing when there is none |
| `CheatsJson.EscapedIsRaw` | payload/include/json_escape.h:4-26 | what the escaper prints is a valid JSON string body |
| `CheatsJson.NameComesBack` | payload/include/cheats_json.h:177-186 | a name printed by the escaper into an outermost member is what lookup and decoder together return, whatever else the file holds |
| `CheatsJson.UnclosedIsNotSkipped` | payload/include/cheats_json.h:16-99 | a string without its closing quote is not skipped |
| `CheatsJson.UnclosedFindsNothing` | payload/include/cheats_json.h:16-99 | and nothing is found behind it |
| `Ava1.TakesField` | payload/gen/ava1_app_gen.c:34-43 | a written field is read back, with what follows it left |
| `Ava1.TakesFields` | payload/gen/ava1_app_gen.c:9-43 | so are all fixed fields in order |
| `Ava1.TakesExts` | payload/gen/ava1_app_gen.c:45-64 | the extension loop over written extensions depends on their list only |
| `Ava1.DecodesBuilt` | payload/gen/ava1_app_gen.c:29-66 | decoding a message built with any list of extensions, known or not, in any order |
| `Ava1.RoundTrip` | payload/gen/ava1_app_gen.c:861-937 | decode(encode(m)) = m for every schema of this kind and every message within its length fields |
| `Ava1.CollectAllMeans` | payload/gen/ava1_app_gen.c:45-64 | the loop succeeds if and only if every known extension parses whole and no known tag repeats, and its result is then determined tag by tag |
| `Ava1.PermutedExtensions` | payload/gen/ava1_app_gen.c:45-64 | permuting extensions changes neither whether decoding succeeds nor its result |
| `Ava1.RepeatedTagRefused` | payload/gen/ava1_app_gen.c:55-56 | a known tag occurring twice, anywhere, is refused |
| `Ava1.UnknownTagIgnored` | payload/gen/ava1_app_gen.c:60-61 | inserting an extension of unknown tag anywhere, with any value, changes nothing |
| `Ava1.ReencodingIsNormalForm` | payload/gen/ava1_app_gen.c:29-66 | any decodable buffer gives a message that can be encoded; that encoding decodes to the same message and re-encodes to itself |
| `Ava1Lists.SchemasAreValid` | payload/gen/ava1_app_gen.c:7-27 | NodeStatus, FsEntry, FsListResult and FsWrite are schemas the theorems apply to |
| `Ava1Lists.Next` | payload/gen/ava1_app_gen.c:222-233 | each item consumes at least four bytes, and the end is reported exactly when nothing is left |
| `Ava1Lists.NextOfAppended` | payload/gen/ava1_app_gen.c:222-233 | an appended message is the next item, with the rest left |
| `Ava1Lists.ItemsOfConcat` | payload/gen/ava1_app_gen.c:235-243 | concatenated blobs iterate to concatenated lists |
| `Ava1Lists.IteratesWhatWasAppended` | payload/gen/ava1_app_gen.c:214-243 | after any sequence of appends, iteration gives exactly those messages in order and then the end |
| `Ava1Lists.ListingRoundTrip` | payload/gen/ava1_app_gen.c:245-273 | a directory listing of any entries decodes to itself with the right count, and its nested blob iterates to those entries |
| `Ava1Messages.FsEntryTravels` | payload/gen/ava1_app_gen.c:156-233 | a directory entry is, in this order, its name with a two-byte length, its kind, eight bytes of size, a count, and tag 1 with the time and tag 2 with the mode as far as it has them; decoding those bytes gives those values |
| `Ava1Messages.FsWriteTravels` | payload/gen/ava1_app_gen.c:764-811 | the same of a write: path, offset, checksum, data and its extension |
| `Ava1Messages.FsListResultTravels` | payload/gen/ava1_app_gen.c:245-273 | the same of a listing: the entries as one blob, the count and the flag |
| `Ava1Messages.NodeStatusTravels` | payload/gen/ava1_app_gen.c:7-66 | the same of a node status: its ten fields in order and its extensions |
| `Ava1Messages.AppendedEntry` | payload/gen/ava1_app_gen.c:156-233 | an entry appended to a listing adds its length in four bytes and its bytes, and is what the iterator then gives |
| `Ava1Messages.AgainIsDuplicate` | payload/gen/ava1_app_gen.c:156-233 | any message with one of its extensions once more, whatever its value, is refused for that |
| `Ava1Messages.TrailingIsRefused` | payload/gen/ava1_app_gen.c:156-233 | any message with bytes after it is refused |
| `Ava1Messages.CutIsRefused` | payload/gen/ava1_app_gen.c:156-233 | any message with any number of its last bytes missing is refused as truncated |
| `Ava1Reader.Reader.Uint` | payload/gen/ava1_app_gen.c:36-43 | the moving reader takes an integer or goes into an error it stays in |
| `Ava1Reader.Reader.Take` | payload/gen/ava1_app_gen.c:48 | the same for a run of bytes |
| `Ava1Reader.Reader.Field` | payload/gen/ava1_app_gen.c:34-43 | the same for any field |
| `Ava1Reader.Reader.Finish` | payload/gen/ava1_app_gen.c:62-65 | the reader's error first, then left-over bytes |
| `Ava1Reader.ReadFields` | payload/gen/ava1_app_gen.c:34-43 | reading on past an error ends in error exactly when the pure reading fails |
| `Ava1Reader.ReadExt` | payload/gen/ava1_app_gen.c:46-51 | one extension off the reader |
| `Ava1Reader.ReadExtValue` | payload/gen/ava1_app_gen.c:52-63 | the value must be one whole field |
| `Ava1Reader.ReadExts` | payload/gen/ava1_app_gen.c:45-64 | the loop with its early returns and sticky error computes the pure extension reading |
| `Ava1Reader.DecodeMessage` | payload/gen/ava1_app_gen.c:29-66 | the decoder as it runs returns the specified message or error for every buffer |
| `Ava1Reader.NextMessage` | payload/gen/ava1_app_gen.c:76-87 | the iterator step on a reader |
| `Ava1Reader.Count` | payload/gen/ava1_app_gen.c:89-97 | the number of messages in a well-formed blob, else the error of the first bad one |
| `Ava1Reader.DecodeListingMessage` | payload/gen/ava1_app_gen.c:253-273 | the listing decoder as it runs, an entry's error before the message's own |
| `Ava1Writer.Writer.LenEnd` | payload/gen/ava1_app_gen.c:68-74 | the length filled in is that of what was written since, and nothing else changes |
| `Ava1Writer.WriteExt` | payload/gen/ava1_app_gen.c:20-24 | tag, back-filled length and value |
| `Ava1Writer.WriteExts` | payload/gen/ava1_app_gen.c:164-173 | the extensions present, in the schema's order |
| `Ava1Writer.CountExts` | payload/gen/ava1_app_gen.c:161-162 | the count written is the number of extensions written |
| `Ava1Writer.EncodeMessage` | payload/gen/ava1_app_gen.c:7-27 | the encoder as it runs, on a writer of any capacity: it succeeds if and only if the encoding fits behind what is there, and then appends exactly it |
| `Ava1Writer.AppendMessage` | payload/gen/ava1_app_gen.c:68-74 | one more list item, its length back-filled: it succeeds if and only if the item fits, then equals the specified append, and otherwise keeps all that was there |
| `Ava1Writer.Writer.Undo` | payload/src/mgmt_fs.c:191-195 | what a failed append left is taken back with its error |
| `Ava1Writer.AppendWhileTheyFit` | payload/src/mgmt_fs.c:137-199 | the listing loop: the blob iterates to exactly the entries that fitted, within its capacity, and the next one would not have fitted |
| `MarkerScan.Shift` | payload/include/pkg_install_logic.h:82-109 | a match inside a slice is a match of the stream at the shifted place, and back |
| `MarkerScan.MatchPlaces` | payload/include/pkg_install_logic.h:88-95 | every match of the longer stream is in the old stream, in the block, or in the 32-byte seam window |
| `MarkerScan.HitIffOccurs` | payload/include/pkg_install_logic.h:82-109 | a block is reported if and only if the stream with it contains the marker |
| `MarkerScan.ScanExtends` | payload/include/pkg_install_logic.h:82-109 | and the carry left is the end of the longer stream, one byte shorter than the marker |
| `MarkerScan.CutDoesNotMatter` | payload/include/pkg_install_logic.h:80-109 | for every stream and every cut into blocks, empty and tiny ones included, the hit comes in exactly the block where the marker first completes, and never if it does not occur |
| `MarkerScan.Search` | payload/include/pkg_install_logic.h:92-95 | the comparing loop finds the marker if and only if it occurs |
| `MarkerScan.Scanner.Keep` | payload/include/pkg_install_logic.h:96-107 | the carry buffer holds exactly the given tail |
| `MarkerScan.Scanner.ScanBlock` | payload/include/pkg_install_logic.h:82-109 | the call on its carry buffer reports and keeps what the specification says; a hit leaves the carry alone |
| `ElfParam.PayloadOffset` | payload/include/elf_param.h:105-114 | an offset other than 0 is where the wrapper's table ends and an ELF magic lies inside the file |
| `ElfParam.ParseHeader` | payload/include/elf_param.h:203-223 | an accepted header has its whole program header table inside the file, in front of the ELF when the table's 64-bit end wraps and the wrapper is long enough; a table read outside is told apart |
| `ElfParam.WildIff` | payload/include/elf_param.h:216-223 | the table is accepted and read outside the file if and only if its end wraps into the file and the wrapper before the ELF is too short to hold its start |
| `ElfParam.FindEntry` | payload/include/elf_param.h:161-168 | the first table entry holding the segment, or none when no entry does |
| `ElfParam.MapByLoad` | payload/include/elf_param.h:170-187 | a mapped range passes the 64-bit bound check and its offset is not negative |
| `ElfParam.MapOffset` | payload/include/elf_param.h:146-188 | so does a mapped segment, by its own entry or through a load segment |
| `ElfParam.MappedInsideIff` | payload/include/elf_param.h:146-188 | a mapped segment lies inside the file if and only if its end does not wrap in 64 bits |
| `ElfParam.FindSites` | payload/include/elf_param.h:193-256 | for any bytes: at most `max` sites, each word inside the file behind a verified magic, or that the code reads or reports a word outside the file |
| `ElfParam.OutsideIff` | payload/include/elf_param.h:239-244 | a segment takes the code outside if and only if it was mapped with an end that wraps and either its magic is not all in the file, or it is there and the word behind it is not |
| `ElfParam.StraysIff` | payload/include/elf_param.h:226-252 | the loop leaves the file if and only if some segment it reaches with room left is such a one |
| `ElfParam.StaysInsideIff` | payload/include/elf_param.h:193-256 | the exact condition, on header fields and the magic, for the whole function |
| `ElfFiles.ReadsOneSegment` | payload/include/elf_param.h:203-232 | a written ELF file of one segment is read back to that segment, whatever follows |
| `ElfFiles.ReadsSegments` | payload/include/elf_param.h:203-232 | a written bare ELF of any segments parses to exactly those, whatever follows its headers |
| `ElfFiles.FindsExpected` | payload/include/elf_param.h:193-256 | on any written bare ELF whose segments' ends do not wrap, the search gives the first `max` of exactly the parameter segments that lie in the file with their magic word at 8, in header order, a process's SDK word at 0x14 and a module's at 0x10 |
| `ElfFiles.StartIs` | payload/include/elf_param.h:81-114 | a file that begins with the bytes of either SELF magic is unwrapped, at the place behind its table, if an ELF is there, and nothing else is |
| `ElfFiles.RefusalsMean` | payload/include/elf_param.h:203-223 | exactly when a file is refused as signed, as no ELF and as malformed, in terms of its bytes |
| `ElfFiles.WrappedEndStrays` | payload/include/elf_param.h:151-155 | a file of 0x68 bytes whose segment size wraps its end to 0: the bound check passes and the magic is read outside |
| `ElfFiles.LastBytesDecide` | payload/include/elf_param.h:241-248 | files whose segment starts twelve bytes before the end with a wrapping size: the code stays inside and reports nothing if the last four bytes are not the magic, and reports a word past the end if they are |
| `ElfFiles.WildTable` | payload/include/elf_param.h:216-227 | a file of 0x40 bytes whose header table is accepted and read outside |
| `ElfParam.FindEntryLoop` | payload/include/elf_param.h:161-168 | the entry loop computes that search |
| `ElfParam.MapOffsetLoops` | payload/include/elf_param.h:146-188 | the two nested passes, in 64-bit sums, compute the mapping |
| `ElfParam.CollectSites` | payload/include/elf_param.h:225-252 | the program-header loop collects exactly the specified sites in order |
| `ElfParam.FindParamSites` | payload/include/elf_param.h:193-256 | the whole function in 64-bit sums, error codes included |
| `ElfParam.MapByLoadFinds` | payload/include/elf_param.h:170-187 | if some load segment with an entry spans the range, mapping finds those very bytes |
| `ElfParam.MapsTheSegment` | payload/include/elf_param.h:146-188 | a covered segment is found in the wrapper and in the bare ELF with identical bytes |
| `ElfParam.SameSiteIn` | payload/include/elf_param.h:226-252 | each segment yields a site in both files or in neither, with the same word |
| `ElfParam.SelfSitesAreElfSites` | payload/include/elf_param.h:105-256 | for a SELF that faithfully holds an ELF's segments and covers its parameter segments, neither file is left and the sites are those of the bare ELF, one to one, in order, with identical words |
| `ElfWrap.ParsesWrapped` | payload/include/elf_param.h:105-114 | a wrapper built around any bare ELF parses to that ELF's own header, moved behind the segment table |
| `ElfWrap.WrappedImage` | payload/include/elf_param.h:156-168 | its program headers are the ELF's and its table reads back entry for entry |
| `ElfWrap.WrappingKeepsSites` | payload/include/elf_param.h:105-256 | round trip: fake-signing any bare ELF for either console, with any entries of other sizes first and any choice of table entries that covers its parameter segments directly or through a load segment, keeps every SDK site, in order, with the same words |
| `AppDbScan.ReadVarint` | payload/include/appdb_scan.h:66-85 | the loop computes the specified value and length, or nothing when the buffer ends |
| `AppDbScan.VarintRoundTrip` | payload/include/appdb_scan.h:66-85 | decoding inverts the 1-to-9-byte encoding of section 1.6 of the SQLite Database File Format for every 64-bit value, anywhere in a buffer |
| `AppDbScan.AcceptedIsUtf8Iff` | payload/include/appdb_scan.h:47-62 | an accepted character is strict UTF-8 if and only if it is not one of four loose second-byte forms |
| `AppDbScan.Utf8IsAccepted` | payload/include/appdb_scan.h:47-62 | every printable UTF-8 character is accepted whole |
| `AppDbScan.CleanButNotUtf8` | payload/include/appdb_scan.h:121-129 | an over-long form passes the text check |
| `AppDbScan.CleanButNotPrintable` | payload/include/appdb_scan.h:120-129 | U+0085, a control character, passes the text check |
| `AppDbScan.AcceptedIsPrintableIff` | payload/include/appdb_scan.h:47-62 | an accepted character is a printable one of UTF-8 if and only if it is none of those five forms |
| `AppDbScan.PrintableIffClean` | payload/include/appdb_scan.h:120-129 | a text is printable UTF-8, said without the code's length table, if and only if the check takes it and none of its characters is an over-long form, a surrogate, past U+10FFFF or a control character of two bytes |
| `AppDbScan.CleanWithoutSpace` | payload/include/appdb_scan.h:158-160 | cutting a trailing space never cuts a character |
| `AppDbScan.TrimmedIsClean` | payload/include/appdb_scan.h:158-160 | so a trimmed name is still clean text |
| `AppDbScan.RowMeans` | payload/include/appdb_scan.h:133-174 | which entry a row gives: the first column that is a title id and the first that can be a name, trimmed; none exactly when there is no title id or, unless ids alone are asked for, no such name of two bytes |
| `AppDbScan.RowsAreGood` | payload/include/appdb_scan.h:133-174 | a row that yields an entry yields a real title id with a clean trimmed name of at least two bytes, or none when only ids are asked for |
| `AppDbScan.CellsAreGood` | payload/include/appdb_scan.h:177-228 | so does a cell, whatever its bytes |
| `AppDbScan.ReadTextColumns` | payload/include/appdb_scan.h:197-224 | the loop over serial types and values computes the text columns, at most 32 |
| `AppDbScan.ReadCellAt` | payload/include/appdb_scan.h:177-228 | the cell reader as it runs, its sums in 64 bits |
| `AppDbScan.FirstPerTitleMeans` | payload/include/appdb_scan.h:264-276 | the deduplication has no title id twice and consists of exactly the first entry of each |
| `AppDbScan.KeepAllIs` | payload/include/appdb_scan.h:264-276 | the running output is always the first `max` of the deduplication of all seen so far |
| `AppDbScan.IsDuplicate` | payload/include/appdb_scan.h:266-273 | the search loop answers whether the id is kept already |
| `AppDbScan.ScanPage` | payload/include/appdb_scan.h:252-277 | the cell loop with its early stop |
| `AppDbScan.ScanPages` | payload/include/appdb_scan.h:244-280 | the page loop with its early stop |
| `AppDbScan.ScanEntries` | payload/include/appdb_scan.h:234-281 | exactly the first `max` of the keep-first-per-title deduplication of all decodable leaf cells in page and pointer order; nothing when the buffer is no database |
| `AppDbScan.ScannedEntriesAreGood` | payload/include/appdb_scan.h:234-281 | every entry returned is good and no title id occurs twice |
| `AppNames.TitleIdIff` | payload/include/appdb_scan.h:88-95 | title ids are exactly four capitals followed by five digits |
| `AppNames.NotANameIff` | payload/include/appdb_scan.h:100-118 | what is no name is exactly: less than two bytes, a path, a `cid:` handle, a title id, an ISO date or a content id, each said by how it is written |
| `AppNames.TrimsPadding` | payload/include/appdb_scan.h:158-160 | the spaces after a name are cut off and nothing else |
| `AppNames.NoOtherShapeIsAName` | payload/include/appdb_scan.h:133-174 | no entry of any row is named by a path, a handle, a date or a content id, and by a title id only when that stands in the row with padding |
| `AppNames.RowIsIdAndName` | payload/include/appdb_scan.h:133-174 | a row whose first title id is `id` and whose first text of none of those shapes is a printable one gives exactly that id and that text without its padding |
| `AppNames.PassedOver` | payload/include/appdb_scan.h:147-152 | texts of 256 bytes or more, empty ones and ones that are not clean are passed over |
| `AppNames.PaddedIdIsAName` | payload/include/appdb_scan.h:100-118 | a title id with a space after it, in the column before the name, is taken for the name |
| `AppNames.ContentIdIsPassedOver` | payload/include/appdb_scan.h:112-116 | a row of a content id, a title id and a text is named by the text |
| `SqliteDb.SerialMeans` | payload/include/appdb_scan.h:208-223 | every serial type of section 2.1 of the SQLite Database File Format gets the width of its value, and exactly texts are taken for texts |
| `SqliteDb.ReservedAreEmpty` | payload/include/appdb_scan.h:214 | the two reserved serial types are read as columns without a value |
| `SqliteDb.ReadsColumns` | payload/include/appdb_scan.h:202-224 | over the serial types and values of any columns the loop gives their texts in order, as many as there is room for |
| `SqliteDb.HeaderSize` | payload/include/appdb_scan.h:194-198 | a record header has a size that counts its own varint |
| `SqliteDb.ReadsCell` | payload/include/appdb_scan.h:177-228 | a leaf cell of section 1.6 that has its whole payload, anywhere in a buffer, is read to its row's texts, the first 32 of them |
| `SqliteDb.CellRoundTrip` | payload/include/appdb_scan.h:177-228 | round trip: such a cell of any row (nulls, integers, reals, blobs and texts in any order), between any bytes, gives the row's texts and its entry; the cells without their whole payload are `SqliteSpill`'s |
| `SqliteDb.SpillRefusedIff` | payload/include/appdb_scan.h:190-192 | a payload length past the buffer is refused unless its 64-bit end wraps into the buffer, and then its record is read |
| `SqliteDb.WrappedPayloadIsRead` | payload/include/appdb_scan.h:190-192 | such a cell, for any row |
| `SqliteSpill.LocalSize` | payload/include/appdb_scan.h:190-192 | how much of a payload a leaf cell of section 1.6 keeps: all of it up to the usable size less 35, and otherwise less, but at least 35 bytes |
| `SqliteSpill.PastTheEndIsRefused` | payload/include/appdb_scan.h:190-192 | a spilled row whose payload would end past the buffer gives nothing |
| `SqliteSpill.ReadsOn` | payload/include/appdb_scan.h:194-224 | one whose payload would end in the buffer is read on through whatever stands there: as its own columns with those bytes for contents |
| `SqliteSpill.SpilledIsSkippedIff` | payload/include/appdb_scan.h:190-192 | so a spilled row is skipped, as the comment says, if and only if its payload would end past the buffer |
| `SqliteSpill.CutNameIsMisread` | payload/include/appdb_scan.h:190-192 | a row cut inside its name: the bytes that follow the cell are taken for the rest of the name |
| `SqliteSpill.SpilledIsRightIff` | payload/include/appdb_scan.h:177-228 | a spilled row gives a named entry whatever bytes follow its cell if and only if the columns that entry is made of are in the cell, and then it is the row's own |
| `SqliteSpill.RowOfConcat` | payload/include/appdb_scan.h:133-174 | columns after the two that a named entry is made of, and columns that are neither title id nor name, never change an entry |
| `SqlitePages.ReadsPlaced` | payload/include/appdb_scan.h:177-228 | what any leaf cell gives, whole or spilled |
| `SqlitePages.PageSizeIff` | payload/include/appdb_scan.h:237-242 | a buffer is scanned, and with pages of this size, if and only if it begins with the 100-byte header of a database of that page size |
| `SqlitePages.DeadPointer` | payload/include/appdb_scan.h:254-259 | a pointer of 0, past its page or past the buffer leads to no cell, and a pointer array ends with the buffer |
| `SqlitePages.LocalGivesOwn` | payload/include/appdb_scan.h:177-228 | a spilled cell gives its row's own entry when the columns it is made of are in the cell |
| `SqlitePages.ScansCells` | payload/include/appdb_scan.h:252-277 | a pointer array gives what the cells it leads to give, in order |
| `SqlitePages.ScansPage` | payload/include/appdb_scan.h:247-277 | so does a leaf page; any other page gives nothing |
| `SqlitePages.ScansDatabase` | payload/include/appdb_scan.h:244-280 | and a whole image, in page and pointer order |
| `SqlitePages.ScanDatabase` | payload/include/appdb_scan.h:234-281 | on any database image, spilled cells included, the scan returns the first `max` of the keep-first-per-title deduplication of what its leaf cells give |
| `SqlitePages.HarmlessPage` | payload/include/appdb_scan.h:252-277 | a page whose spilled cells are past the buffer or have in them what their entry is made of gives the entries of its rows that are seen, and nothing else |
| `SqlitePages.HarmlessDatabase` | payload/include/appdb_scan.h:234-281 | so does a whole image of such pages |
| `HwBgRead.StepKeepsInv` | payload/include/hw_bg_read.h:37-89 | every locked section, spawn outcome and read keeps the invariant of flags, readers and history |
| `HwBgRead.OneReaderOneDelivery` | payload/include/hw_bg_read.h:37-89 | in every run at most one thread reads, and each delivery is of the latest begin, carries what that read left, and happens at most once per begin |
| `HwBgRead.NoCopyWhileReading` | payload/include/hw_bg_read.h:80-89 | the buffer is copied out only when no thread can be writing it |
| `HwBgRead.DeliversAndClaimsExactly` | payload/include/hw_bg_read.h:37-89 | after any run, a take is given the latest begin's read if and only if it has finished and nobody has had it; a begin starts a reader if and only if no thread is reading or about to |
| `HwBgRead.BgRead.ClaimSection` | payload/include/hw_bg_read.h:47-55 | the flags afterwards and whether this caller may spawn |
| `HwBgRead.BgRead.ReleaseSection` | payload/include/hw_bg_read.h:56-61 | a failed spawn frees the flag and nothing else |
| `HwBgRead.BgRead.PublishSection` | payload/include/hw_bg_read.h:37-44 | a finished read is marked ready and not running |
| `HwBgRead.BgRead.TakeSection` | payload/include/hw_bg_read.h:80-89 | a ready result is copied and consumed, otherwise nothing changes |
| `HwTempsFlight.StepKeepsInv` | payload/include/hw_temps_flight.h:62-112 | every section keeps: one reader while reading, reports strictly increasing by flight, the label the last getter entered, the stored sample the last finished one, all answers and reports good |
| `HwTempsFlight.OneReaderOneReport` | payload/include/hw_temps_flight.h:62-112 | in every run at most one caller is inside the getters, each flight's stall is reported at most once, and every answer is a whole finished read or blank, a fresh one within its cache time |
| `HwTempsFlight.ReportNamesItsOwnCallIff` | payload/include/hw_temps_flight.h:100-112 | in every run a stall report names the last getter entered before it, and that getter is the reported read's own if and only if that read had entered one |
| `HwTempsFlight.StallMayNameAnEarlierCall` | payload/include/hw_temps_flight.h:85-112 | a run whose stall report on the second read names a getter that only the first read entered |
| `HwTempsFlight.BeginMeans` | payload/include/hw_temps_flight.h:62-82 | after any run, a caller is given the last read that ended if that was less than 1000 ms ago, otherwise that read as stale while another caller reads, and otherwise reads itself |
| `HwTempsFlight.StallMeans` | payload/include/hw_temps_flight.h:102-112 | a stall is reported if and only if a read is going on, for 500 ms or more, and was not reported before |
| `HwTempsFlight.Flight.BeginSection` | payload/include/hw_temps_flight.h:62-82 | fields and answer as the step says |
| `HwTempsFlight.Flight.EndSection` | payload/include/hw_temps_flight.h:90-98 | the sample with its time is stored and the flight ends |
| `HwTempsFlight.Flight.InCall` | payload/include/hw_temps_flight.h:85-87 | the label alone changes |
| `HwTempsFlight.Flight.StallSection` | payload/include/hw_temps_flight.h:102-112 | reported only while reading, past the limit and not yet said, with the label set last or "(starting)" |
| `SigpipeGuard.StepKeepsInv` | payload/include/sigpipe_guard.h:24-54 | every call and signal of every thread keeps: every thread blocks SIGPIPE but the opener inside its window, the action is ignore outside a window, and only the opener can have died |
| `SigpipeGuard.OnlyTheOpenerCanDie` | payload/include/sigpipe_guard.h:4-14 | for any number of threads started after main's block, no thread but the opener of an open window dies of SIGPIPE, under section 2.4.3 of POSIX.1-2017 System Interfaces |
| `SigpipeGuard.CloseLeavesNothingPending` | payload/include/sigpipe_guard.h:49-54 | after the close the action is ignore, nothing is pending anywhere and the opener blocks the signal again |
| `SigpipeGuard.OpeningKillsIff` | payload/include/sigpipe_guard.h:42-47 | opening a window ends the process by itself if and only if a SIGPIPE kept from before waits for the opener |
| `SigpipeGuard.WindowBegins` | payload/include/sigpipe_guard.h:42-47 | a window begins with nothing waiting for its opener if and only if nothing was before |
| `SigpipeGuard.NoOwnWriteNoDeath` | payload/include/sigpipe_guard.h:40-47 | and then, whatever the other threads do, the process lives until the opener itself writes to a closed peer |
| `SigpipeGuard.UnblockedBystanderDies` | payload/include/sigpipe_guard.h:30-34 | a thread that never blocked it dies in another thread's window |
| `SigpipeGuard.ThreadBornInWindowDies` | payload/include/sigpipe_guard.h:42-47 | so does a thread created inside the window |
| `SigpipeGuard.OpeningMeans` | payload/include/sigpipe_guard.h:42-47 | opening leaves the default action, the opener unblocked, every other mask and every other thread's signal as they were |
| `SigpipeGuard.OwnWriteKills` | payload/include/sigpipe_guard.h:40-41 | whatever the others have done since the opening, the opener's own write to a closed peer ends the process |
| `SigpipeGuard.BystanderWaits` | payload/include/sigpipe_guard.h:11-14 | another thread's write during the window only leaves a signal waiting for that thread |
| `SigpipeGuard.WriteOutsideWaits` | payload/include/sigpipe_guard.h:6-14 | outside a window a write never ends the process and leaves at most a signal waiting for its own thread |
| `SigpipeGuard.BornBlocked` | payload/include/sigpipe_guard.h:11-14 | a thread created outside the window blocks the signal |
| `SigpipeGuard.WindowIsUndone` | payload/include/sigpipe_guard.h:42-54 | opening and closing gives the process back as it was, with nothing waiting |
| `SigpipeGuard.Signals.BlockIn` | payload/include/sigpipe_guard.h:30-34 | one thread's mask changes |
| `SigpipeGuard.Signals.UnblockIn` | payload/include/sigpipe_guard.h:42-47 | unblocking delivers what was pending for that thread |
| `SigpipeGuard.Signals.Signal` | payload/include/sigpipe_guard.h:42-54 | setting the action returns the old one, and ignoring discards what is pending |
| `SigpipeGuard.Signals.DefaultOpen` | payload/include/sigpipe_guard.h:42-47 | the two calls in order are the two opening steps |
| `SigpipeGuard.Signals.DefaultClose` | payload/include/sigpipe_guard.h:49-54 | the two calls in order are the two closing steps |
| `PageFiles.ReachNext` | client/vite.pageCss.ts:36-43 | an import of a reached file, resolved and swapped, is reached |
| `PageFiles.ClosedHasAll` | client/vite.pageCss.ts:35-44 | when the worklist is empty every file at the end of an import path has been seen |
| `PageFiles.WalkVisit` | client/vite.pageCss.ts:38-43 | visiting a file keeps: all seen is reached, and every import of a seen file is seen or queued |
| `PageFiles.WalkSkip` | client/vite.pageCss.ts:36-37 | so does dropping a seen or non-source file |
| `PageFiles.WalkDone` | client/vite.pageCss.ts:35-45 | at the end the seen files are exactly the reached ones |
| `PageFiles.InsertSorts` | client/vite.pageCss.ts:45 | the sort keeps strict order and the same files |
| `PageFiles.LessIff` | client/vite.pageCss.ts:45 | the order is that of the first code unit in which two names differ, a name before its extensions |
| `PageFiles.SortFiles` | client/vite.pageCss.ts:45 | the seen files, each once, in code-unit order |
| `PageFiles.Walk` | client/vite.pageCss.ts:29-46 | terminates on every finite graph, cycles included, and returns exactly the reachable source files in sorted order; no result exactly when a reached file cannot be read |
| `ReplyPacker.WeightJoins` | scripts/release-posts.js:223 | joining two posts weighs their sum and one newline |
| `ReplyPacker.PackReplies` | scripts/release-posts.js:221-236 | the loop with its skipping index computes the block packing |
| `ReplyPacker.BlocksKeepLines` | scripts/release-posts.js:224-233 | cutting lines into blocks loses and reorders nothing |
| `ReplyPacker.EveryLineOnce` | scripts/release-posts.js:221-236 | the replies, joined, are the lines, each once and in order |
| `ReplyPacker.PackGroups` | scripts/release-posts.js:224-235 | every post is a run of whole blocks, and one of two or more blocks is within the limit |
| `ReplyPacker.PostsWithinLimit` | scripts/release-posts.js:221-236 | when each block fits alone, every post is within 280 |
| `ReplyPacker.OverlongPostIsOneBlock` | scripts/release-posts.js:221-236 | whatever the weights, a post over the limit is a single block over it |
| `ReplyPacker.HeadingsStayWithTheirLine` | scripts/release-posts.js:225-227 | without two headings in a row, no post but the last ends in a heading |
| `ReplyPacker.BuiltHeadingsApart` | scripts/release-posts.js:210-220 | the lines built from parsed groups never have two headings in a row |
| `ReplyPacker.ReleaseHeadingsStay` | scripts/release-posts.js:208-236 | so in the replies of any release no post ends in a heading: each is with its first item |
| `ReplyPacker.GroupIsPlaced` | scripts/release-posts.js:208-220 | each group's heading, but for the first group's, and its items stand together, behind all items of the groups before it and before all of those after it and the closing line |
| `ReplyPacker.ReleaseIsPosted` | scripts/release-posts.js:208-236 | the posts of a release hold every item of every group and the closing line, and every heading but the first, each once and in order |
| `ReplyPacker.TwoHeadingsCanSplit` | scripts/release-posts.js:225-227 | with two headings in a row the second can be parted from its item |
| `ReplyPacker.StaysAhead` | scripts/release-posts.js:224-234 | against any other packing the greedy one is never behind by more than the weight of its open post |
| `ReplyPacker.FewestPosts` | scripts/release-posts.js:208-236 | no order-preserving division of the packer's blocks into posts within the limit uses fewer posts |
| `ReplyPacker.BlocksOfConcat` | scripts/release-posts.js:225-227 | blocks do not reach over a line that is no heading |
| `ReplyPacker.FewestPostsOfAny` | scripts/release-posts.js:208-236 | no division of the lines, in order, into posts within the limit of which none but the last ends in a heading uses fewer posts |

## Assumptions

- AVA1's `ava1_w_*` and `ava1_r_*` primitives are not part of this model's sources. They are taken
  as little-endian fixed-width integers, a 16-bit length before a string, a 32-bit length before
  bytes, extension values and list items, a reader whose first error stays, and a writer that goes
  into such an error when its buffer is full and writes nothing more.
- Clocks, wait outcomes, thread creation, short writes and the order in which data reaches storage
  are chosen by the run, without restriction.
- `AtomicFile` assumes that the target, as seen and as a crash would leave it, is wholly on storage when
  the first call starts, that the temp is not another name of either, and that nobody else writes them.
- `SigpipeGuard` assumes at most one window open and no thread created inside it, as the header asks.

## Left out

- AVA1 messages other than NodeStatus, FsEntry, FsListResult and FsWrite: simpler schemas of the same kind.
- What an out-of-file read of the ELF search returns: the model stops there and says so. Offsets into an app.db buffer are natural numbers, its length being far below 2^63.
- `cj_str` and `cj_str_before`: the flat substring lookup, and the fallback of `cj_top_str` that uses it.
- A nesting deeper than a C `int` counts in `cj_top_value`: the depth is unbounded here.
- `hw_bg_read_wait` and `atomic_file_close_stream`: a bounded poll and a straight line of checks.
- The wait loop of the timed initializers as one blocking method: each of its turns is a step of a run instead, and setting up the condition variable is not modelled.
- The four status arrays of the job ring are one array of records; the ids stay an array of their own.
- How a relative import is resolved on disk, and the pattern that finds imports in a text: the walk takes the resolved imports of each readable file as given.
- The text of posts (`stripMd`, `clip`, `shortItem`): lines are given with their length as X counts it.
- HTTP header lookup, percent decoding, dates and request lines: formatting around the range parser.
- Wall-clock durations and fairness: nothing is said about how long a wait takes.
- Kernel, ptrace, ShellUI and Sony calls, the client's user interface, the website and the release scripts apart from the packer: no visible logic of this kind.
