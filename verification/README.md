# androidfilelogger in Dafny

A Dafny model of the core of androidfilelogger, an Android logging library.
It has three parts:

- **The rotating log store** (`FileLogTree`):
  - a directory of log files named `logPrefix + timestamp + logExt`;
  - one current file that receives appends;
  - rollover when the current file passes `fileMaxLength`;
  - eviction of the oldest files while the total passes `totalMaxLength`;
  - the sequential drain of queued records;
  - the cross-process `SpinLock` around the drain.
- **The log-line codec** (`LogEntry.print`, `getPriorityName`).
- **Crash capture and recovery, and the upload**:
  - the crash file written by the uncaught-exception handler;
  - the chain to the previously installed handler;
  - the wrapped crash text handed to a listener at the next start;
  - the default listener, which uploads that text through `LogSender`;
  - deletion of the crash record on an acknowledged success only.

The file system, clock, HTTP exchange and archive writer become inputs:

- **Directory** (`FileLogTree.Dir`):
  - a map from file name to length;
  - the set of names whose `delete()` fails;
  - whether new files can be created.
- **Timestamps** are already-formatted strings. The `FileStamp` module proves separately that the default `fileDateFormat` renders local wall-clock order as name order.
- **Upload**:
  - the outcome of building the archive is an `ArchiveStep`;
  - the HTTP outcome is a `Reply`;
  - `sendLogs` yields the ordered list of its observable events: request sent, callback, archive deleted.
- **Crash file** (`CrashLog.CrashFile`): either absent or present with its text.

Modules, one per source file, plus shared helpers:

| file | module | models |
|---|---|---|
| wrappers.dfy | `Wrappers` | `Option`, for Kotlin's nullable references |
| text.dfy | `Text` | prefix/suffix tests, `String.compareTo` order, UTF-8 byte length |
| sorted.dfy | `Sorted` | sorting a set of names ascending |
| logger_config.dfy | `Config` | `LoggerConfig` and its defaults, log-file names |
| file_stamp.dfy | `FileStamp` | the default file-name timestamp pattern |
| log_entry.dfy | `LogEntryCodec` | `LogEntry.print`, `getPriorityName` |
| spin_lock.dfy | `SpinLock` | `SpinLock`, the cross-process lock |
| file_log_tree.dfy | `FileLogTree` | the rotating store |
| crash_logger.dfy | `CrashLog` | `CrashLogger` file handling |
| uncaught_handler.dfy | `UncaughtHandler` | `CustomUncaughtExceptionHandler` and its installation |
| log_sender.dfy | `LogSender` | `LogSender.sendLogs` |
| default_crash_log_handler.dfy | `CrashRecovery` | `DefaultCrashLogHandler` and the recovery cycle |

Details of the code that the model follows:

- **Lock result.** The `Boolean` that `timedLock` returns is ignored (FileLogTree.kt:99), so a timeout does not stop the drain. But `timedLock` never returns there as written: see "## Findings". `init` takes the lock with `lock()` and gives it back with `release()` (FileLogTree.kt:63, 69). `release` closes the socket but never clears `mServer` (SpinLock.kt:61-68). So the `tryLock` inside every later `timedLock` throws `IllegalStateException` (SpinLock.kt:17-21). `timedLock` catches only `IOException` and `InterruptedException` (SpinLock.kt:35, 38), so the exception leaves the coroutine before the `while` loop at FileLogTree.kt:100 and before `release()` at FileLogTree.kt:115.
- **Callback before deletion.** After an HTTP response or a transport failure, `sendLogs` calls the callback first and deletes the archive afterwards (LogSender.kt:59-60, 64-70). Only the `IOException` path deletes first (LogSender.kt:75-76). `LogSender.ArchiveAlwaysDeleted` states this order.
- **Unread configuration.** `ApiConfig.stringParts` is never read, so it is not modelled.

## Model

| member | source | states |
|---|---|---|
| Text.BelowIrreflexive | androidfilelogger/src/main/java/com/smartmove/androidfilelogger/FileLogTree.kt:235 | no name sorts before itself under `compareTo` |
| Text.BelowAsymmetric | androidfilelogger/src/main/java/com/smartmove/androidfilelogger/FileLogTree.kt:235 | two names never sort before each other |
| Text.BelowTransitive | androidfilelogger/src/main/java/com/smartmove/androidfilelogger/FileLogTree.kt:235 | the `compareTo` order is transitive |
| Text.BelowTotal | androidfilelogger/src/main/java/com/smartmove/androidfilelogger/FileLogTree.kt:235 | any two different names are ordered one way or the other |
| Text.BelowConcat | androidfilelogger/src/main/java/com/smartmove/androidfilelogger/FileLogTree.kt:235 | for equal-length first parts, concatenations compare by the first parts, then by the second |
| Text.ByteLength | androidfilelogger/src/main/java/com/smartmove/androidfilelogger/FileLogTree.kt:106 | a string takes between one and four bytes per character in UTF-8 |
| Text.ByteLengthConcat | androidfilelogger/src/main/java/com/smartmove/androidfilelogger/FileLogTree.kt:106 | the UTF-8 length of a concatenation is the sum of the lengths |
| Text.ByteLengthAscii | androidfilelogger/src/main/java/com/smartmove/androidfilelogger/FileLogTree.kt:106 | ASCII text takes exactly one byte per character |
| Config.FileName | androidfilelogger/src/main/java/com/smartmove/androidfilelogger/FileLogTree.kt:204 | a created file's name starts with `logPrefix`, ends with `logExt`, and is as long as prefix, stamp and extension together |
| Config.FileNameOrder | androidfilelogger/src/main/java/com/smartmove/androidfilelogger/FileLogTree.kt:234-235 | for stamps of equal width, file names sort in `compareTo` order exactly when the stamps do |
| Config.DefaultCaps | androidfilelogger/src/main/java/com/smartmove/androidfilelogger/LoggerConfig.kt:3-12 | the default per-file cap is 1,000,000, the default total cap 5,000,000 (strictly larger), prefix "log", extension ".log" |
| FileStamp.RenderOrder | androidfilelogger/src/main/java/com/smartmove/androidfilelogger/LoggerConfig.kt:4 | for valid wall-clock readings, the stamp rendered with the default `fileDateFormat` sorts before another exactly when its reading is earlier |
| FileStamp.RenderWidth | androidfilelogger/src/main/java/com/smartmove/androidfilelogger/LoggerConfig.kt:4 | every rendered stamp is fixed-width: as long as the pattern itself, 23 characters |
| FileStamp.DefaultNamesFollowTime | androidfilelogger/src/main/java/com/smartmove/androidfilelogger/FileLogTree.kt:234-235 | with the default configuration, the names of created files sort in the order of the local wall-clock readings they were made from, both ways |
| Sorted.SortSet | androidfilelogger/src/main/java/com/smartmove/androidfilelogger/FileLogTree.kt:235 | sorting a set of names yields exactly its members, each once (as many as the set has) |
| Sorted.SortSetAscending | androidfilelogger/src/main/java/com/smartmove/androidfilelogger/FileLogTree.kt:235 | the sorted sequence is strictly ascending in `compareTo` order |
| FileLogTree.LogFiles | androidfilelogger/src/main/java/com/smartmove/androidfilelogger/FileLogTree.kt:220-238 | the listing holds exactly the directory entries that start with `logPrefix`; an empty directory lists nothing |
| FileLogTree.LogFilesAscending | androidfilelogger/src/main/java/com/smartmove/androidfilelogger/FileLogTree.kt:234-235 | the listing is strictly ascending by name |
| FileLogTree.LogFilesUnique | androidfilelogger/src/main/java/com/smartmove/androidfilelogger/FileLogTree.kt:228-235 | any strictly ascending sequence of exactly the prefixed names is the listing itself |
| FileLogTree.LogFileNames | androidfilelogger/src/main/java/com/smartmove/androidfilelogger/FileLogTree.kt:240-246 | `getLogFileNames` holds the same names as `getLogFiles` |
| FileLogTree.Cleanup | androidfilelogger/src/main/java/com/smartmove/androidfilelogger/FileLogTree.kt:173-191 | eviction returns the listing of the directory it leaves, only removes files, and changes nothing else about the directory |
| FileLogTree.CleanupShape | androidfilelogger/src/main/java/com/smartmove/androidfilelogger/FileLogTree.kt:173-191 | the delete-and-relist recursion equals deleting the first `EvictCount` files of the initial listing and returning the rest of it |
| FileLogTree.EvictCountJustified | androidfilelogger/src/main/java/com/smartmove/androidfilelogger/FileLogTree.kt:176-184 | every file eviction deletes could be deleted, and was deleted while the files from it on exceeded `totalMaxLength` |
| FileLogTree.EvictCountStops | androidfilelogger/src/main/java/com/smartmove/androidfilelogger/FileLogTree.kt:175-190 | eviction stops only when no file is left, the rest fits the total cap, or the oldest remaining file refuses deletion |
| FileLogTree.CleanupKeepsSuffix | androidfilelogger/src/main/java/com/smartmove/androidfilelogger/FileLogTree.kt:181-184 | the surviving listing is a suffix of the original sorted listing, so only the oldest files go |
| FileLogTree.CleanupDeletesOnlyOldest | androidfilelogger/src/main/java/com/smartmove/androidfilelogger/FileLogTree.kt:174-184 | a file survives exactly when it is not among the deleted oldest files; files without the prefix and the lengths of survivors are untouched |
| FileLogTree.CleanupStopsAtCapOrFailure | androidfilelogger/src/main/java/com/smartmove/androidfilelogger/FileLogTree.kt:180-187 | each deletion was justified by the total exceeding the cap, and a failed delete ends eviction with that file still listed |
| FileLogTree.CleanupRetentionBound | androidfilelogger/src/main/java/com/smartmove/androidfilelogger/FileLogTree.kt:173-191 | when every log file can be deleted and the cap is non-negative, the log files left total at most `totalMaxLength` bytes |
| FileLogTree.LatestLogFile | androidfilelogger/src/main/java/com/smartmove/androidfilelogger/FileLogTree.kt:193-200 | after an eviction pass: the newest listed file under `fileMaxLength`, sorting after every other log file, or null when none is left or the newest is at or over the cap |
| FileLogTree.CreateNewFile | androidfilelogger/src/main/java/com/smartmove/androidfilelogger/FileLogTree.kt:202-218 | the new file is named prefix + stamp + extension and is listed; an existing file of that name is returned unchanged; null exactly when it is absent and cannot be created |
| FileLogTree.RolloverSwitchesAndEvicts | androidfilelogger/src/main/java/com/smartmove/androidfilelogger/FileLogTree.kt:157-171 | when a new file can be created under a fresh name, rollover changes the current file, and then eviction leaves the log files within the total cap |
| FileLogTree.FileMaxLengthExceeded | androidfilelogger/src/main/java/com/smartmove/androidfilelogger/FileLogTree.kt:157-171 | rollover adopts the newest under-cap file if it is another file, else creates one; on success it runs eviction; if no file can be had, the current file stays |
| FileLogTree.CheckCurrentFileReady | androidfilelogger/src/main/java/com/smartmove/androidfilelogger/FileLogTree.kt:130-155 | ready exactly when a current file is set afterwards; with one already set it is always ready and rolls over only past the cap; without one it adopts, else creates, and fails only when both fail |
| FileLogTree.RolloverAtCapBoundary | androidfilelogger/src/main/java/com/smartmove/androidfilelogger/FileLogTree.kt:150 | a current file of exactly `fileMaxLength` bytes leaves the store unchanged (no rollover) |
| FileLogTree.ReuseAtCapBoundary | androidfilelogger/src/main/java/com/smartmove/androidfilelogger/FileLogTree.kt:197 | a newest file of exactly `fileMaxLength` bytes is never picked for reuse |
| FileLogTree.Append | androidfilelogger/src/main/java/com/smartmove/androidfilelogger/FileLogTree.kt:105-107 | the target file grows by the UTF-8 length of the line; every other file is unchanged |
| FileLogTree.WriteOne | androidfilelogger/src/main/java/com/smartmove/androidfilelogger/FileLogTree.kt:101-113 | a record is appended, as `print` writes it, to the file that is current after the ready check, which then grows by the line's UTF-8 length; the record is lost when no file is ready, and also when that file has vanished and cannot be re-created, because the write's `IOException` is swallowed; the store never changes `canCreate` or the undeletable set |
| FileLogTree.DrainConcat | androidfilelogger/src/main/java/com/smartmove/androidfilelogger/FileLogTree.kt:100-114 | records are handled in queue order: draining `a + b` drains `a` and then `b` from the store `a` left, and the outcome for `a` does not depend on later records |
| FileLogTree.DrainLast | androidfilelogger/src/main/java/com/smartmove/androidfilelogger/FileLogTree.kt:100-114 | a record queued behind `q` is written by one more pass of the write step, from the store the records of `q` left |
| FileLogTree.DrainLastTarget | androidfilelogger/src/main/java/com/smartmove/androidfilelogger/FileLogTree.kt:100-114 | a drain keeps the configuration and the level, and the last record goes to the file left current |
| FileLogTree.DrainNeverDrops | androidfilelogger/src/main/java/com/smartmove/androidfilelogger/FileLogTree.kt:100-114 | with a current file to start with, every record gets a target and a current file is left at the end |
| FileLogTree.DrainTargetsPersist | androidfilelogger/src/main/java/com/smartmove/androidfilelogger/FileLogTree.kt:100-114 | once a record gets a target every later one does too, so with no file at the end no record got one |
| FileLogTree.ProcessQueue | androidfilelogger/src/main/java/com/smartmove/androidfilelogger/FileLogTree.kt:97-117 | the loop computes `Drain`, the in-order fold of the write step over the queue, so the directory and current file it leaves are those of writing every record in FIFO order; plus the target facts of the three lemmas above |
| SpinLock.TryLock | androidfilelogger/src/main/java/com/smartmove/androidfilelogger/SpinLock.kt:14-22 | a try throws exactly when `mServer` is set, open or closed; otherwise it binds exactly when the name is free |
| SpinLock.Acquire | androidfilelogger/src/main/java/com/smartmove/androidfilelogger/SpinLock.kt:24-58 | the retry loop of `lock`/`timedLock` throws exactly when `mServer` is set and a try is made, binds exactly when `mServer` is unset and the name is free at some try, and otherwise leaves the lock as it was |
| SpinLock.ReleaseAsWritten | androidfilelogger/src/main/java/com/smartmove/androidfilelogger/SpinLock.kt:60-68 | `release` as written: a lock that was ever held is never unset again |
| SpinLock.Release | androidfilelogger/src/main/java/com/smartmove/androidfilelogger/SpinLock.kt:60-68 | the intended `release`: the lock is unset, so no later locking call throws |
| SpinLock.ReleasedLockThrows | androidfilelogger/src/main/java/com/smartmove/androidfilelogger/SpinLock.kt:17-21 | as written, after a hold and a release, every locking call throws at its first try, even with the name free, and leaves the lock unchanged |
| SpinLock.ReleasedLockReacquires | androidfilelogger/src/main/java/com/smartmove/androidfilelogger/SpinLock.kt:14-22 | with the intended release, a locking call never throws and acquires exactly when the name is free at some try |
| FileLogTree.LockedDrain | androidfilelogger/src/main/java/com/smartmove/androidfilelogger/FileLogTree.kt:97-117 | when `timedLock` throws, the coroutine writes nothing and leaves the queue and the lock as they were; otherwise, whatever `timedLock` returned, it drains the whole queue and releases the lock |
| FileLogTree.InitLock | androidfilelogger/src/main/java/com/smartmove/androidfilelogger/FileLogTree.kt:63-69 | `init` leaves the lock as `release` leaves a held lock |
| FileLogTree.DrainNeverRunsAsWritten | androidfilelogger/src/main/java/com/smartmove/androidfilelogger/FileLogTree.kt:97-117 | as written, every `processQueue` after `init` writes nothing, leaves every record queued and leaves the lock unchanged, so it fails again next time |
| FileLogTree.DrainRunsWithRelease | androidfilelogger/src/main/java/com/smartmove/androidfilelogger/FileLogTree.kt:97-117 | with the intended release, every `processQueue` after `init` drains the whole queue in order and leaves the lock free |
| FileLogTree.AppendConcat | androidfilelogger/src/main/java/com/smartmove/androidfilelogger/FileLogTree.kt:104-106 | two appends grow a file exactly as one append of both lines |
| FileLogTree.AppendAscii | androidfilelogger/src/main/java/com/smartmove/androidfilelogger/FileLogTree.kt:104-106 | an ASCII line grows its file by exactly its character count |
| FileLogTree.IsLoggable | androidfilelogger/src/main/java/com/smartmove/androidfilelogger/FileLogTree.kt:72-74 | for the named priorities, a record is loggable exactly when its severity is at least the level |
| FileLogTree.ReleaseLevelKeepsInfoAndAbove | androidfilelogger/src/main/java/com/smartmove/androidfilelogger/FileLogTree.kt:72-74 | at the non-debug initial level, a record is loggable exactly when its severity name is INFO, WARN, ERROR or ASSERT |
| FileLogTree.Init | androidfilelogger/src/main/java/com/smartmove/androidfilelogger/FileLogTree.kt:60-70 | construction starts at VERBOSE when debugging and INFO otherwise, and ends without a current file only when no file could be reused or created |
| FileLogTree.Log | androidfilelogger/src/main/java/com/smartmove/androidfilelogger/FileLogTree.kt:83-94 | when the directory exists the record is queued last behind the earlier ones; otherwise the queue is unchanged |
| LogEntryCodec.PriorityName | androidfilelogger/src/main/java/com/smartmove/androidfilelogger/LogEntry.kt:26-35 | the name is that of the band the priority falls in: priorities above ASSERT are ASSERT, below DEBUG are VERBOSE; it holds no '\|' |
| LogEntryCodec.PriorityNameMonotone | androidfilelogger/src/main/java/com/smartmove/androidfilelogger/LogEntry.kt:26-35 | a higher priority never gets a lower severity |
| LogEntryCodec.PriorityNameOfLevel | androidfilelogger/src/main/java/com/smartmove/androidfilelogger/LogEntry.kt:26-35 | each Android constant is named by its own name |
| LogEntryCodec.Body | androidfilelogger/src/main/java/com/smartmove/androidfilelogger/LogEntry.kt:15-21 | the line's body starts with the message verbatim, and is exactly the message without a throwable |
| LogEntryCodec.Render | androidfilelogger/src/main/java/com/smartmove/androidfilelogger/LogEntry.kt:9-24 | every line starts with "[" and ends with CR LF |
| LogEntryCodec.DecodeLayout | androidfilelogger/src/main/java/com/smartmove/androidfilelogger/LogEntry.kt:12-22 | the layout `[stamp] tag\|severity\|body` CR LF can be split back into its fields when the stamp has no ']' and tag and severity have no '\|' |
| LogEntryCodec.LayoutDecode | androidfilelogger/src/main/java/com/smartmove/androidfilelogger/LogEntry.kt:12-22 | every line that splits into fields is exactly the layout of those fields |
| LogEntryCodec.DecodeRender | androidfilelogger/src/main/java/com/smartmove/androidfilelogger/LogEntry.kt:12-22 | a rendered line yields its stamp, tag ("null" for none), severity name and body, whose start is the message |
| LogEntryCodec.RenderKeepsFrames | androidfilelogger/src/main/java/com/smartmove/androidfilelogger/LogEntry.kt:16-21 | the corrected rendering contains every stack frame of the throwable |
| LogEntryCodec.BodyAsWritten | androidfilelogger/src/main/java/com/smartmove/androidfilelogger/LogEntry.kt:15-21 | the body as written starts with the message, is the message alone without a throwable, and with one ends with the frame array's identity string |
| LogEntryCodec.RenderAsWritten | androidfilelogger/src/main/java/com/smartmove/androidfilelogger/LogEntry.kt:9-24 | the line the code writes starts with "[" and ends with CR LF |
| LogEntryCodec.DecodeRenderAsWritten | androidfilelogger/src/main/java/com/smartmove/androidfilelogger/LogEntry.kt:12-22 | a line as written decodes to its stamp, tag ("null" for none), severity name and a body that starts with the message and, for a throwable, ends with the frame array's identity string |
| LogEntryCodec.AsWrittenAgreesWithoutThrowable | androidfilelogger/src/main/java/com/smartmove/androidfilelogger/LogEntry.kt:16-21 | without a throwable, the line as written is the corrected line |
| LogEntryCodec.AsWrittenLosesFrames | androidfilelogger/src/main/java/com/smartmove/androidfilelogger/LogEntry.kt:20 | as written, the line does not depend on the throwable's frames at all |
| LogEntryCodec.AsWrittenDiffersFromFrames | androidfilelogger/src/main/java/com/smartmove/androidfilelogger/LogEntry.kt:20 | a concrete record whose line as written differs from the line with its frames |
| CrashLog.Record | androidfilelogger/src/main/java/com/smartmove/androidfilelogger/CrashLogger.kt:65-67 | a crash record starts with "crash_timestamp=" and ends with the stack trace |
| CrashLog.LogCrash | androidfilelogger/src/main/java/com/smartmove/androidfilelogger/CrashLogger.kt:53-78 | an unopenable file is left as it was; otherwise the file exists afterwards and keeps its old text as a prefix; it gains the record, or the part of it written before an I/O error |
| CrashLog.RepeatedCrashesAccumulate | androidfilelogger/src/main/java/com/smartmove/androidfilelogger/CrashLogger.kt:56 | two crashes leave both records, in order, after the earlier text |
| CrashLog.Delete | androidfilelogger/src/main/java/com/smartmove/androidfilelogger/CrashLogger.kt:49-51 | after `deleteCrashLog` no crash log exists |
| CrashLog.Wrap | androidfilelogger/src/main/java/com/smartmove/androidfilelogger/CrashLogger.kt:82-90 | the listener text opens with "crash log:\n<pre>\n" and closes with "\n</pre>\n" |
| CrashLog.Unwrap | androidfilelogger/src/main/java/com/smartmove/androidfilelogger/CrashLogger.kt:82-90 | a text can be unwrapped exactly when it has that opening and closing |
| CrashLog.UnwrapWrap | androidfilelogger/src/main/java/com/smartmove/androidfilelogger/CrashLogger.kt:82-90 | unwrapping the listener text gives back the file text exactly |
| CrashLog.WrapUnwrap | androidfilelogger/src/main/java/com/smartmove/androidfilelogger/CrashLogger.kt:82-90 | every unwrappable text is the wrapping of what it unwraps to |
| CrashLog.PrepareCrashLog | androidfilelogger/src/main/java/com/smartmove/androidfilelogger/CrashLogger.kt:80-94 | the listener is handed text exactly when the crash file exists and a listener is set; it is the wrapped file text, or the bare wrapping after a read failure |
| CrashLog.CrashLogHandled | androidfilelogger/src/main/java/com/smartmove/androidfilelogger/CrashLogger.kt:29-37 | acknowledging success deletes the crash file; acknowledging failure leaves it as it was |
| UncaughtHandler.Install | androidfilelogger/src/main/java/com/smartmove/androidfilelogger/CrashLogger.kt:39-43 | the new logger becomes the first logger on the chain, ahead of all earlier ones, and the platform handler at the end of the chain is unchanged |
| UncaughtHandler.Uncaught | androidfilelogger/src/main/java/com/smartmove/androidfilelogger/CustomUncaughtExceptionHandler.kt:10-17 | the crash loggers record the crash in chain order up to the first whose handling throws something other than an `IOException`; that throwable escapes and nothing further down runs; only when every logger returns does the platform handler at the end, if any, get the exception, last |
| UncaughtHandler.SameThreadAndException | androidfilelogger/src/main/java/com/smartmove/androidfilelogger/CustomUncaughtExceptionHandler.kt:16 | every handler that runs on the chain sees the same thread and exception |
| UncaughtHandler.CaptureThenChain | androidfilelogger/src/main/java/com/smartmove/androidfilelogger/CustomUncaughtExceptionHandler.kt:14-16 | when the new logger's handling returns, its record comes first and then the previous handler runs unchanged (with none, the record is the only effect); when it throws, the escape is the only effect and the previous handler never runs |
| UncaughtHandler.PlatformReachedIffNoneThrow | androidfilelogger/src/main/java/com/smartmove/androidfilelogger/CustomUncaughtExceptionHandler.kt:10-17 | on any chain ending in a platform handler, that handler gets the exception, last, exactly when no crash logger on the chain throws |
| UncaughtHandler.InstallKeepsPlatform | androidfilelogger/src/main/java/com/smartmove/androidfilelogger/CrashLogger.kt:39-43 | after installing a crash logger, the platform handler the chain ended in receives the exception, last, if and only if neither the new logger nor any earlier one throws |
| LogSender.TrimUrl | androidfilelogger/src/main/java/com/smartmove/androidfilelogger/LogSender.kt:51-55 | the trimmed URL is a prefix of the URL, one "/" shorter when it ends with "/", and the URL itself otherwise |
| LogSender.ReplaceSpaces | androidfilelogger/src/main/java/com/smartmove/androidfilelogger/LogSender.kt:28 | each space becomes "_", every other character and the length are kept |
| LogSender.ArchivePath | androidfilelogger/src/main/java/com/smartmove/androidfilelogger/LogSender.kt:28 | the archive path contains no space and is as long as directory, separator and date together |
| LogSender.Archive | androidfilelogger/src/main/java/com/smartmove/androidfilelogger/LogSender.kt:22-49 | a file part is attached exactly when the manager has a directory and files and the archive file was created without an exception |
| LogSender.SendLogs | androidfilelogger/src/main/java/com/smartmove/androidfilelogger/LogSender.kt:20-78 | with no log manager the only event is `onFailure` |
| LogSender.ExactlyOneCallback | androidfilelogger/src/main/java/com/smartmove/androidfilelogger/LogSender.kt:56-78 | every path fires exactly one callback, and it is `onSuccess` exactly when there is a manager and a 2xx response |
| LogSender.ArchiveAlwaysDeleted | androidfilelogger/src/main/java/com/smartmove/androidfilelogger/LogSender.kt:56-76 | on every path where the callback returns, a built archive is deleted, last after a response or transport failure; with no archive nothing is deleted |
| LogSender.RequestCarriesBody | androidfilelogger/src/main/java/com/smartmove/androidfilelogger/LogSender.kt:42-56 | the request goes out first with the body unchanged, the trimmed URL, and a file part exactly when an archive was built |
| LogSender.SentOnlyWithManager | androidfilelogger/src/main/java/com/smartmove/androidfilelogger/LogSender.kt:20-78 | a request is sent exactly when there is a manager and no `IOException` came first |
| CrashRecovery.HandleCrashLog | androidfilelogger/src/main/java/com/smartmove/androidfilelogger/DefaultCrashLogHandler.kt:11-20 | the listener acknowledges exactly once: `true` exactly when the upload succeeded, `false` otherwise |
| CrashRecovery.ContentIsBody | androidfilelogger/src/main/java/com/smartmove/androidfilelogger/DefaultCrashLogHandler.kt:11-12 | the crash content is the upload body unchanged |
| CrashRecovery.ApplyAcks | androidfilelogger/src/main/java/com/smartmove/androidfilelogger/CrashLogger.kt:29-37 | only failure acknowledgments leave the crash file as it was; any success leaves no crash file |
| CrashRecovery.Recover | androidfilelogger/src/main/java/com/smartmove/androidfilelogger/CrashLogger.kt:80-94 | with no crash file, start-up recovery does nothing and sends nothing |
| CrashRecovery.RecoverDeletesIffUploaded | androidfilelogger/src/main/java/com/smartmove/androidfilelogger/DefaultCrashLogHandler.kt:11-20 | the crash record is deleted exactly when the upload succeeded; otherwise it stays exactly as it was |
| CrashRecovery.RecoverSendsWrappedText | androidfilelogger/src/main/java/com/smartmove/androidfilelogger/CrashLogger.kt:82-92 | the uploaded body is the wrapped crash text, from which the text is recovered exactly |

## Left out

- SpinLock.kt: mutual exclusion between processes is not modelled. Whether the lock's name is free at each try is an input, and the clock behind `timedLock`'s deadline becomes the number of tries. `FileLogTree.ProcessQueue` and `FileLogTree.Drain` model the drain as it runs with a working lock: `FileLogTree.DrainRunsWithRelease` ties them to the intended `SpinLock.Release`. `rollover` and `init` run as if the lock were held.
- FileLogTree.LockedDrain: the exception that leaves the coroutine is handed to the coroutine machinery, and what that machinery does with it is not modelled.
- Concurrency: the coroutine executor and the concurrent queue are not modelled. The drain is a sequential loop over a sequence of records.
- Clock and formatting: `SimpleDateFormat`, `Date()` and `Locale` are not modelled. Formatted times are input strings. The default file pattern is rendered by `FileStamp.Render` only for years 0 to 9999.
- Throwables: `toString()`, the frames' `toString()` and `printStackTrace` output are opaque strings.
- Timber and logcat: debug output is not modelled, including `logIfDebug`, `super.log` and `createStackElementTag`.
- HTTP and archive writing:
  - Retrofit/OkHttp and the asynchrony of `enqueue` are not modelled; a `Reply` stands for the outcome.
  - `addToZip` is not modelled; an `ArchiveStep` stands for how building the archive went.
  - `addToZip` swallows its own errors, so a created archive is always attached.
- Interfaces:
  - `LogManagerInterface` becomes a `LogManager` value, and `ApiConfig` a `SenderConfig`.
  - `subject` and `type` are opaque strings; ApiConfig.kt does not declare them.
- Paths:
  - `getLogDir`, `baseDir` and absolute paths are not modelled; log files are identified by name.
  - The request's file part carries the archive path rather than only its last component.
  - Sub-directories of the log directory are not modelled.
- `mkdir` of the log directory in `init` is not modelled. `FileLogTree.Log` takes whether the directory exists as an input.
- FileLogTree.Cleanup: sums of lengths are unbounded integers; a Kotlin `Long` overflow would need over 2^63 bytes of log files.
- FileLogTree.CleanupRetentionBound: holds only when no log file refuses deletion and the cap is non-negative. When a delete fails, the source keeps the files over the cap too.
- FileLogTree.RolloverSwitchesAndEvicts: needs file creation to be possible and the fresh name to differ from the current one. If the clock gives the same stamp twice, `createNewFile` returns the current file itself.
- FileLogTree.Append: a write that fails midway is not modelled. The line is appended whole, or not at all when the file is gone and cannot be re-created.
- CrashLog.Delete: `File.delete()` of the crash file is taken to succeed; its result is ignored in the source.
- FileStamp.DefaultNamesFollowTime: the clock is assumed never to go back. Stamps are local wall-clock readings in the default time zone, so a daylight-saving fall-back, a manual clock change or an NTP step back can give a newer file a name that sorts below an older one; eviction then deletes the newer file first and `getLatestLogFile` picks the older one.
- UncaughtHandler.Uncaught: what reaches the crash file before a throwing logger's throwable escapes is not modelled; the escape is one `Escaped` effect, and which loggers throw is an input.
- LogSender.ArchiveAlwaysDeleted: callbacks and `Timber.e` are assumed to return. A callback or `Timber.e` that throws at LogSender.kt:58-59 or 64-68 skips the delete at LogSender.kt:60 or 70 and leaves the archive on disk.
- Text.Below: compares characters as Dafny characters (Unicode scalar values). `String.compareTo` compares UTF-16 code units, which differs only beyond the Basic Multilingual Plane.

## Findings

| source | as written | input that shows it | evidently intended | confidence | as-written member | corrected member |
|---|---|---|---|---|---|---|
| androidfilelogger/src/main/java/com/smartmove/androidfilelogger/LogEntry.kt:20 | `sb.append(t.stackTrace)` appends the stack-frame array's default `toString()`, `[Ljava.lang.StackTraceElement;@<hash>`, so no frame reaches the log file | priority ERROR, tag "T", message "m", a throwable "E" with the single frame "f", stamp "s": the line is `[s] T\|ERROR\|m: E` CR LF `[Ljava.lang.StackTraceElement;@<hash>` CR LF instead of `[s] T\|ERROR\|m: E` CR LF `f` CR LF | the frames, one per line, as a stack trace is normally logged | high; not executed | LogEntryCodec.AsWrittenDiffersFromFrames | LogEntryCodec.RenderKeepsFrames |
| androidfilelogger/src/main/java/com/smartmove/androidfilelogger/SpinLock.kt:61-68 | `release` closes the socket but leaves `mServer` set, so the `tryLock` at SpinLock.kt:17-21 inside every later `timedLock` (FileLogTree.kt:99) throws `IllegalStateException`, which `timedLock` does not catch | construct a `FileLogTree`: `init` locks with the name free, then releases; any later `log` call starts `processQueue`, its first `tryLock` throws, and no record is ever written to a file | `release` also sets `mServer` back to null, so the drain takes the lock again and runs | high; not executed | FileLogTree.DrainNeverRunsAsWritten | FileLogTree.DrainRunsWithRelease |

The store appends the line as written (`LogEntryCodec.RenderAsWritten`), because that is what the program puts in its files and what its byte counts, rollover and eviction see.
`LogEntryCodec.AsWrittenLosesFrames` shows that this line ignores the frames.
`LogEntryCodec.Render` is the corrected rendering, and `LogEntryCodec.RenderKeepsFrames` proves it keeps every frame.
`LogEntryCodec.AsWrittenAgreesWithoutThrowable` shows that the two agree on every record without a throwable, so the fix changes the store only for records that carry one.

`SpinLock.ReleaseAsWritten` is `release` as written. `SpinLock.ReleasedLockThrows` shows that a released lock throws at its next try, and `FileLogTree.DrainNeverRunsAsWritten` lifts this to the drain. `SpinLock.Release` is the corrected `release`. `FileLogTree.DrainRunsWithRelease` shows that with it every drain after `init` is `FileLogTree.Drain`, the fold that `FileLogTree.ProcessQueue` computes and the rest of the store's lemmas describe.
