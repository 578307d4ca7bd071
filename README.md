# HotReload: a verified model of the reload loop

HotReload is a small Win32 tool. It loads a DLL, watches the library's
directory, and reloads the DLL whenever a change notification names it.
It never loads the library in place. Instead it copies it to a staging path
in the temporary directory and loads that copy, so the build can keep
overwriting the original. The whole tool is `main.cpp`. This project models
its sequential core:

- `CopyAndLoadLibrary`: copy the library to the staging path, then load the
  staged copy.
- `WaitForFile`: a bounded lock probe. It makes at most five opens, with a
  doubling sleep after each sharing violation.
- The walk over a `FILE_NOTIFY_INFORMATION` batch that `ReadDirectoryChangesW`
  writes into an 8192-byte buffer. Each record has a 12-byte little-endian
  header (NextEntryOffset, Action, FileNameLength) followed by a UTF-16 name.
  The walk follows NextEntryOffset until it reads 0, or until a free fails
  and Run returns.
- The per-record reload step: on a record naming the library, free the held
  module, wait for the file, then copy and load it again.
- `Run`, which stages at start-up and then repeats the watch loop over a
  finite sequence of OS replies.

Every OS call is replaced by an outcome supplied as input:

- the outcome of each `CreateFileW` probe;
- whether `copy_file` succeeds;
- what `LoadLibraryW` returns;
- whether `FreeLibrary` succeeds;
- the bytes each read delivers.

The answers for the reload step of a record are keyed by the record's byte
offset in the buffer. Offsets strictly increase along a walk, so each record
gets its own answers.

The calls on the library, its staged copy and the module are recorded in a
trace of `Call` values: `CreateFileW` and `CloseHandle` on the library,
`Sleep`, `copy_file`, `LoadLibraryW` and `FreeLibrary`. The directory open and
`ReadDirectoryChangesW` are inputs only and are not recorded.

The model keeps the tool's behaviour as written. Run holds the handle it
loaded at start-up for its whole lifetime, because the handle returned by the
reload (main.cpp:244) is discarded. So every later match frees that same
handle value again, and no handle whose value differs from the start-up
handle is ever freed. `Reload.BatchFreesStaleHandle` and
`Reload.SecondReloadFreesStaleHandle` state this.

A handle value says nothing about which load it came from. A reload that maps
the staged copy at the same base address gets the same HMODULE back, and the
next stale free then releases the live module. The model does not tell these
cases apart.

The second free of an already-freed handle most likely fails, and Run then
returns (main.cpp:232-236). `Reload.SecondFreeFails` is that run.
`Reload.SecondReloadFreesStaleHandle` is the run where the OS reports both
frees as successful.

Files:

| file | contents |
|---|---|
| `win32.dfy` | Bytes, UTF-16 units, handles, probe outcomes, the `Call` trace vocabulary. |
| `stager.dfy` | `CopyAndLoadLibrary`. |
| `waiter.dfy` | `WaitForFile`, its specification functions and the properties of the retry policy. |
| `notify.dfy` | The record layout, the decoder (`Records`), the array readers used by the walk, and an encoder with the decode-encode round trip. |
| `walk.dfy` | The walk as Run makes it: it follows NextEntryOffset but may stop early at a record, and how that walk relates to `Records`. |
| `reload.dfy` | The reload step, the batch walk, the watch loop, `Run`, and the properties of the whole loop. |

The tool is meant to do three things that `main.cpp` does not do:

- set the held handle to none once it is released;
- treat an empty batch as holding no records;
- detect a corrupt batch.

The model follows the code on all three:

- After a reload, the held handle is not set to none, and it is not replaced
  by the new handle. `libraryHandle` is assigned only at main.cpp:163.
- A buffer is never treated as holding zero records. The walk always decodes
  a record at the start of the buffer, whatever the read returned.
- Nothing detects a corrupt or truncated batch; there is no bounds check.
  The model makes "every record the walk reads lies inside the buffer" a
  precondition. For one batch it is `Walk.WalkFits`; for every read that
  happens it is `Reload.ReadsFit`. It is not a guarantee. Nothing is asked of
  the bytes after a record whose free fails, because the code returns there
  (main.cpp:236) and reads no further.

## Model

| member | source | states |
|---|---|---|
| Stager.CopyAndLoadLibrary | main.cpp:70-99 | Always copies the library to the staging path. It loads the staged copy only when the copy succeeded. It returns None on a failed copy or a failed load, and otherwise the handle the load returned. |
| Stager.StageTrace | main.cpp:74-98 | The calls of one staging: the copy, then the load of the staged copy only when the copy succeeded. |
| Stager.StageTraceLoadsStagedCopy | main.cpp:74-98 | The copy comes first, and a load is attempted exactly when the copy succeeded. The only calls are that copy and a load of the staged copy, never of the library itself. |
| Waiter.WaitForFile | main.cpp:101-147 | The loop returns `WaitOutcome(probe)` and makes exactly the calls of `WaitTrace`. That is one open and one doubling sleep per sharing violation, then the open that ended the wait, followed by a close if that open succeeded. |
| Waiter.SleepAfter | main.cpp:105-128 | The sleep after sharing violation `k`: 100 ms, doubled after each one, never below 100 ms. |
| Waiter.Backoff | main.cpp:105-128 | The first `n` sleep durations, one per sharing violation, the `i`-th being `SleepAfter(i)`. |
| Waiter.WaitOutcome | main.cpp:109-146 | The wait returns TRUE when the attempt after the run of sharing violations is within the five and opens the file. |
| Waiter.Retries | main.cpp:109-130 | An open and a sleep for each of the first `n` sharing violations: `2n` calls. |
| Waiter.WaitTrace | main.cpp:103-146 | The calls of a wait: the retries, then the open that ended it (with its close if it succeeded), unless the five attempts ran out. |
| Waiter.Violations | main.cpp:109-130 | The run of consecutive sharing violations stays within the five attempts. If it ends early, the attempt after it is not a sharing violation. |
| Waiter.ViolationsCount | main.cpp:124-130 | When the first `n` probes from `from` are sharing violations and probe `n` is not (or `n` is the budget), the run has length `n - from`. |
| Waiter.WaitEndsFailed | main.cpp:121-136 | After `n` sharing violations, any other error ends the wait. The result is FALSE, the calls are the `n` retries and one more open, and there is no sleep. |
| Waiter.WaitEndsOpened | main.cpp:138-143 | After `n` sharing violations, a successful open gives TRUE. The calls are the `n` retries, that open and the close of its handle. |
| Waiter.WaitEndsExhausted | main.cpp:109-130 | Five sharing violations give FALSE. The calls are exactly the five retries, including the sleep after the fifth. |
| Waiter.WaitEndsAt | main.cpp:109-146 | Fixes the outcome and the full trace once it is known where the run of sharing violations ends. |
| Waiter.RetriesAttempts | main.cpp:109-129 | `n` retries make `n` opens. |
| Waiter.RetriesSleeps | main.cpp:124-129 | The sleeps of `n` retries are the first `n` backoff durations. |
| Waiter.RetriesMembers | main.cpp:111-129 | Retries only open the library and sleep. |
| Waiter.RetriesFirst | main.cpp:109-119 | The first call of a retry is an open of the library. |
| Waiter.WaitTraceAttempts | main.cpp:103-146 | A wait makes one open per sharing violation plus the open that ended it, unless the five attempts ran out. |
| Waiter.WaitTraceSleeps | main.cpp:105-128 | A wait sleeps once per sharing violation: 100 ms first, doubling each time. |
| Waiter.WaitTraceMembers | main.cpp:109-143 | A wait only opens and closes the library and sleeps, and it begins with an open. |
| Waiter.WaitTraceShape | main.cpp:103-146 | Every wait makes between one and five opens, with one backoff sleep per sharing violation and nothing but the probe. |
| Waiter.WaitClosesOnSuccess | main.cpp:138-143 | A wait returns TRUE exactly when it closes a probe handle, and a successful wait ends with that close. |
| Waiter.BackoffSchedule | main.cpp:105-128 | The backoff is a prefix of 100, 200, 400, 800, 1600. |
| Waiter.ExhaustedWaitFails | main.cpp:103-146 | Five sharing violations give FALSE after five opens, with sleeps 100, 200, 400, 800 and 1600. |
| Waiter.OtherErrorIsTerminal | main.cpp:121-136 | An error other than ERROR_SHARING_VIOLATION on attempt `k+1` gives FALSE at once. There are `k+1` opens, only the `k` earlier sleeps, and that open is the last call. |
| Waiter.FirstOpenSucceeds | main.cpp:138-143 | The first successful open gives TRUE. The trace ends with that open and the close of its handle, and no further attempt follows. |
| Waiter.WaitOutcomeExactly | main.cpp:109-146 | WaitForFile returns TRUE if and only if some attempt within the five opens succeeds after nothing but sharing violations. |
| Waiter.FifthAttemptSucceeds | main.cpp:109-143 | Sharing violations on attempts 1-4 and an open on attempt 5 give TRUE after five opens, with sleeps 100, 200, 400 and 800. |
| Notify.U32At | main.cpp:215 | A header field read as a little-endian DWORD is below 2^32. |
| Notify.U16At | main.cpp:217 | A name unit is the little-endian 16-bit value of two bytes. |
| Notify.NextEntryOffset | main.cpp:248-252 | The DWORD at byte 0 of a record. |
| Notify.Action | main.cpp:215 | The DWORD at byte 4 of a record. It is decoded and never inspected. |
| Notify.FileNameLength | main.cpp:217 | The DWORD at byte 8 of a record: the name's length in bytes. |
| Notify.RecordFits | main.cpp:215-217 | The header and the `FileNameLength / 2` units that main.cpp:217 reads lie inside the buffer. |
| Notify.UnitsAt | main.cpp:217 | The `n` units of `wstring(info->FileName, FileNameLength / 2)`; the result has exactly `n` units. |
| Notify.EntryAt | main.cpp:215-217 | The record at `p`: its offset, NextEntryOffset, Action, and the name that starts 12 bytes in. |
| Notify.WellFormedFrom | main.cpp:213-252 | Every record reached by following NextEntryOffset from `p` until it is 0 fits in the buffer. |
| Notify.Records | main.cpp:209-253 | The records a walk reads when it never stops early, in order, up to the one with NextEntryOffset 0. |
| Notify.RecordsUnfold | main.cpp:248-252 | The walk from `p` is its record, followed by the walk from NextEntryOffset bytes later when that offset is non-zero. |
| Notify.UnitsAtIndex | main.cpp:217 | Unit `k` of a decoded name is the little-endian 16-bit unit at byte `start + 2k`. |
| Notify.UnitsAtExtends | main.cpp:217 | Bytes after a name do not change how it decodes. |
| Notify.ChainStep | main.cpp:248-252 | A fitting record with NextEntryOffset 0 is the whole walk. Otherwise the walk is that record followed by the walk from NextEntryOffset bytes later. |
| Notify.RecordsEnds | main.cpp:209-253 | The walk visits at least one record, the first at the buffer start, and it stops at a record whose NextEntryOffset is 0. |
| Notify.RecordDecoded | main.cpp:215-217 | The `i`-th record visited lies at or after the start, fits in the buffer, and is the record decoded at its own offset. |
| Notify.RecordLink | main.cpp:248-252 | Every visited record but the last has a non-zero NextEntryOffset, and the next record starts that many bytes after it. |
| Notify.RecordAt | main.cpp:213-252 | Combines the two facts above for the `i`-th record. The last record has NextEntryOffset 0. |
| Notify.OffsetsIncrease | main.cpp:248-252 | Visited records are at strictly increasing positions. |
| Notify.RecordsChain | main.cpp:209-253 | The whole walk at once: it starts at the buffer start, each step adds a non-zero NextEntryOffset, offsets strictly increase, the last record has NextEntryOffset 0, and every record fits and is decoded at its offset. |
| Notify.WellFormedExtends | main.cpp:213-252 | Appending bytes after a well-formed chain does not change what the walk decodes. |
| Notify.Overlay | main.cpp:189-198 | A read writes its bytes at the start of the buffer and leaves the rest, and the length, unchanged. |
| Notify.DeliveredChainDecodes | main.cpp:189-217 | When the delivered bytes form a well-formed chain, the walk over the whole buffer decodes exactly those records, whatever stale bytes follow. |
| Notify.ReadDword | main.cpp:215 | Reading a header field from the buffer array gives the little-endian DWORD at that offset. |
| Notify.ReadName | main.cpp:217 | Copying `n` units from the array gives the decoded name. |
| Notify.ReadEntry | main.cpp:215-217 | The record read from the array at `p` is the record decoded at `p`. |
| Notify.LE32Decodes | main.cpp:215 | Four bytes encoding a DWORD read back as that DWORD. |
| Notify.NameDecodes | main.cpp:217 | An encoded name decodes to itself as `FileNameLength / 2` units. |
| Notify.HeaderDecodes | main.cpp:215 | Three encoded DWORDs at a record's start read back as its NextEntryOffset, Action and FileNameLength. |
| Notify.FieldsDecode | main.cpp:215-217 | A header whose FileNameLength is twice a name's length, followed by that name's units, fits in the buffer and decodes to that record. |
| Notify.EntryDecodes | main.cpp:215-217 | An encoded record decodes to its action and name, with NextEntryOffset 0 exactly when it is the last. |
| Notify.DecodeLast | main.cpp:248-252 | An encoded last record is the whole walk from its offset, and it decodes to its one change. |
| Notify.DecodeLink | main.cpp:248-252 | An encoded record that is not the last, followed by a well-formed walk, extends that walk by its own change at the front. |
| Notify.DecodeEncodeAt | main.cpp:213-252 | A batch of one or more changes encoded at `p` is well formed from `p`, and it decodes to exactly those changes, in order. |
| Notify.DecodeEncode | main.cpp:213-252 | The round trip holds wherever the batch sits and whatever follows it. |
| Walk.Stops | main.cpp:232-252 | The walk stops after a record whose NextEntryOffset is 0, or at a record where the reader halts. |
| Walk.WalkFits | main.cpp:213-252 | Every record the walk reads fits in the buffer. Nothing is asked of the bytes after the record where it stops. |
| Walk.Walked | main.cpp:209-253 | The records read, in order, up to NextEntryOffset 0 or up to the first record where the reader halts. |
| Walk.WalkUnfold | main.cpp:248-252 | The walk is its first record, followed by the walk from NextEntryOffset bytes later unless it stops there. |
| Walk.WalkedEnds | main.cpp:209-253 | The walk reads at least one record, the first at `p`, and it stops at the last record it reads. |
| Walk.WalkedDecoded | main.cpp:215-217 | The `k`-th record read lies at or after `p`, fits, and is the record decoded at its own offset. |
| Walk.WalkedLink | main.cpp:248-252 | The walk continues past record `k` only if it does not stop there. The next record starts NextEntryOffset bytes later. |
| Walk.WalkedAt | main.cpp:213-252 | The facts above for the `k`-th record. The walk stops at the last record. |
| Walk.WellFormedWalks | main.cpp:213-252 | On a well-formed chain the walk reads a prefix of `Records`. It reads fewer records only when it halted at the last one it read. |
| Reload.ReloadStep | main.cpp:220-246 | The step for one record makes exactly the calls of `Step`. A non-matching name does nothing. A match frees the held handle (ending Run if the free fails), waits, and copies and loads only after a successful wait. The new handle is discarded. |
| Reload.Step | main.cpp:220-246 | The calls of one record's step. Another name makes no call. A match frees the held handle, and Run ends if that free fails. Otherwise it waits, and copies and loads only after a successful wait. |
| Reload.Aborts | main.cpp:220-236 | A step ends Run exactly when the record names the library, a handle is held and its free fails. |
| Reload.StepAborts | main.cpp:224-237 | A step reports that it ended Run exactly when `Aborts` holds. |
| Reload.StepAll | main.cpp:213-253 | The steps of a batch process at most its records, and all of them unless a step ends Run. |
| Reload.StepAllSnoc | main.cpp:213-253 | The steps for a batch with one more record are the earlier steps, then that record's step unless Run already ended. |
| Reload.StepAllPrefix | main.cpp:213-253 | The steps for the first `i + 1` records are those for the first `i`, then record `i`'s step unless Run already ended. |
| Reload.PrefixAborted | main.cpp:232-236 | When Run ends within the first `n` records, the whole batch is those `n` steps. |
| Reload.AbortIsFinal | main.cpp:232-236 | Once a free fails, no later record is processed. |
| Reload.BatchAdvances | main.cpp:213-253 | Handling record `i` extends the batch by that step. The batch is complete once that step aborts or record `i` is the last. |
| Reload.Halts | main.cpp:232-236 | Run's walk halts at a record whose step ends Run. That step uses the answers keyed by the record's offset. |
| Reload.Batch | main.cpp:209-253 | The steps Run takes over one buffer: `StepAll` over the records its walk reads. |
| Reload.FailedFreeEndsWalk | main.cpp:229-236 | If the first record names the library and the held handle's free fails, only that record need fit. It is the whole walk, and the batch is that one free, ending Run. |
| Reload.NoAbortBefore | main.cpp:232-236 | If none of the first `m` steps ends Run, Run has not ended after them. |
| Reload.WalkMatchesRecords | main.cpp:209-253 | On a well-formed chain, the steps over the records the walk reads equal the steps over all decoded records. The unread records all come after a failed free. |
| Reload.RunBatch | main.cpp:209-253 | The in-place walk over the buffer array makes exactly the steps of `Batch`, that is `StepAll` over the records `Walk.Walked` reads. It visits those records' offsets in order and stops after the record with NextEntryOffset 0 or after a failed free. It needs only the records it reads to fit. |
| Reload.WatchDelivered | main.cpp:184-253 | One turn of the watch loop on a delivered batch: Run ends if a free failed, and otherwise it continues with the next read. |
| Reload.StartupHandle | main.cpp:163 | The handle Run holds throughout: the start-up load's result, or none if the copy failed. |
| Reload.ReadsFit | main.cpp:184-253 | Each read that happens fits in the buffer, and the walk of the batch it leaves stays inside the buffer. Later reads are constrained only while no read and no free has failed. |
| Reload.Watch | main.cpp:184-254 | The watch loop over the replies. A failed read ends it. A batch whose free fails ends it with that batch's calls. Otherwise it goes on with the next reply, and it is Watching when the replies run out. |
| Reload.RunSpec | main.cpp:153-255 | All of Run: the start-up staging, then either a failed directory open or the watch loop with the start-up handle. |
| Reload.WatchTurn | main.cpp:184-253 | One turn of the loop, as WatchChanges takes it: a batch that ends Run ends the loop with the calls so far plus the batch's. Any other batch moves the loop on to the next reply. |
| Reload.Deliver | main.cpp:189-198 | A read overwrites the start of the buffer with the delivered bytes. |
| Reload.WatchChanges | main.cpp:184-254 | The watch loop makes exactly the calls of `Watch` and ends as `Watch` says: on a failed read, a failed free, or when the replies run out. |
| Reload.Run | main.cpp:153-255 | All of Run: the start-up stage and load, then either the failed directory open or the watch loop. The handle held throughout is the start-up one. |
| Reload.StepConfined | main.cpp:220-245 | A step only probes the library, copies it to the staging path, loads the staged copy and frees the held handle. |
| Reload.StepIgnoresOtherNames | main.cpp:217-220 | A record naming another file makes no call and never ends Run. |
| Reload.StepFreesBeforeWaiting | main.cpp:224-240 | With a handle held, a matching record first frees it. The step ends Run exactly when the free fails, with no other call. Otherwise the wait's first open follows at once. |
| Reload.StepWithoutHandleWaits | main.cpp:224-240 | With no handle held, a matching record frees nothing, never ends Run, and starts with the wait. |
| Reload.StepStagesOnlyAfterWait | main.cpp:240-245 | A step copies the library exactly when the name matches, the free (if any) succeeded and the wait succeeded. It loads exactly when the copy also succeeded. The copy comes right after the close of the successful probe. |
| Reload.StepFreeCount | main.cpp:224-229 | A step frees `x` once when `x` is the held handle and the name matches, and never otherwise. |
| Reload.Matches | main.cpp:217-220 | The number of records naming the library, at most the number of records. |
| Reload.FreesOneMoreStep | main.cpp:220-244 | The inductive step of `BatchFreesStaleHandle`: one more step adds a free of `x` exactly when it matches and `x` is the held handle. |
| Reload.BatchIgnoresOtherNames | main.cpp:217-252 | A batch in which no record names the library makes no call and is walked to its end. |
| Reload.BatchConfined | main.cpp:213-253 | A batch only probes the library, copies it to the staging path, loads the staged copy and frees the held handle. |
| Reload.Confined | main.cpp:153-255 | Calls that only probe the library, copy it to the staging path, load the staged copy, sleep, and free the held handle. |
| Reload.BatchFreesStaleHandle | main.cpp:220-244 | The held handle is freed once per processed matching record, the same handle every time. No handle whose value differs from the held one is ever freed. A reloaded handle is freed only if it has the same value. |
| Reload.WatchConfined | main.cpp:184-254 | The whole watch loop stays confined to the library, its staged copy and the held handle. |
| Reload.RunConfined | main.cpp:153-255 | Over a whole run, the library is only ever read and only the staged copy is loaded. The only handle value ever freed is the one loaded at start-up. |
| Reload.OneChangeDelivered | main.cpp:189-217 | A read delivering one encoded change leaves exactly one record carrying that change. |
| Reload.SmoothStep | main.cpp:220-245 | A matching record whose free, first open, copy and load all succeed frees, probes once, closes the probe, copies and loads. |
| Reload.SmoothCalls | main.cpp:220-245 | The calls of a smooth reload: free, open, close, copy, load. |
| Reload.SmoothBatch | main.cpp:213-253 | A batch of one matching record with smooth answers makes exactly the calls of a smooth reload and does not end Run. |
| Reload.SmoothCallsFree | main.cpp:224-229 | A smooth reload frees the held handle once and no other handle. |
| Reload.WatchReadThen | main.cpp:184-253 | A delivered well-formed batch that does not end Run adds its calls ahead of the rest of the loop. |
| Reload.WatchReadAborts | main.cpp:189-236 | A read whose first record names the library, while the held handle's free fails, ends Run after that one free. This holds whatever the rest of the buffer and the later replies hold. |
| Reload.OneReloadScenario | main.cpp:153-253 | End to end: stage and load, then one change to the library frees the start-up handle, waits, copies and loads again, and Run goes on watching. |
| Reload.TwoSmoothReads | main.cpp:184-253 | Two reads each delivering a change to the library give two smooth reloads, and both free the start-up handle. |
| Reload.SecondReloadFreesStaleHandle | main.cpp:163-244 | After two such reads, with the OS reporting both frees as successful, the start-up handle has been freed twice (the second time already freed). The handle the first reload loaded, here a different value, is never freed. |
| Reload.SecondFreeFails | main.cpp:163-236 | Two changes to the library, where the second free of the already-freed start-up handle fails. Run stages, reloads once, frees again and returns FreeFailed. The reads after that do not matter. |

## Left out

- Console output (`wcout`), `GetError` and `FormatMessageW` (main.cpp:63-68): text I/O only.
- The OS calls on the library, its staged copy and the module: `CreateFileW` and `CloseHandle` in the wait, `Sleep`, `copy_file`, `LoadLibraryW` and `FreeLibrary`. Each is an outcome supplied as input plus an entry in the recorded trace, and none is emulated.
- The directory `CreateFileW` (main.cpp:165-173) is not recorded in the trace. Its outcome is the input flag `Startup.watchOk`.
- `ReadDirectoryChangesW` (main.cpp:189-198) is not recorded in the trace. Each call is one `Read` input, which fails or delivers bytes.
- The path computations with `filesystem::absolute`, `filename`, `parent_path` and `temp_directory_path` (main.cpp:155-161): these are library behaviour. `Config` takes the library path, its file name and the staging path as given.
- The directory open (main.cpp:165-179) is reduced to one success flag. The directory handle is never closed, by the model or by the code.
- The outer `while (true)` (main.cpp:184) never ends on its own. The model runs it over a finite sequence of replies and ends as `Watching` when they run out. Termination of the real loop is not modelled.
- `bytesReturned` (main.cpp:188, 196) is never read by the code, so the model ignores it too. The walk always starts at the buffer start, and bytes beyond a read's output keep what an earlier read or the uninitialised stack array left.
- A read that returns zero bytes leaves the buffer unchanged in the model. The walk then decodes the stale contents, as the code would.
- The `Action` field is decoded but never inspected, so every action is handled alike.
- The unused `moduleHandle` parameter of `Run`, the `wmain` argument handling, and the commented-out `DllMain`/`CreateThread` code.
- DWORD wrap-around: `sleepDuration` is doubled at most five times, to 3200 at most, and `attempt` stays at or below 5, so neither can wrap. `p += NextEntryOffset` stays inside the buffer under the precondition `Walk.WalkFits`.
- UTF-16 is kept as raw 16-bit units. `libraryName` is a `filesystem::path` (main.cpp:157), so main.cpp:220 compares paths. For a name without separators that is unit-by-unit equality, which the model uses: no normalisation and no case folding.
- `Notify.Encode` is a reference encoder used only for the round trip. It packs records back to back, without the DWORD alignment padding the OS may insert.
- Out-of-bounds reads on a malformed batch: the code has no bounds check, so its behaviour there is undefined. The model requires the records the walk reads to fit in the buffer.
