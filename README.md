# A verified model of a file watcher's core

The system watches files and directories through Linux inotify. When a
watched path changes, it kills the command it started last and runs that
command again through `/bin/sh -c`. A Go front end appends the default
entries to the exclude list and glob-expands both path lists
(main.go:56-58). The C library does the watching, the exclusion (by exact
string match) and the process supervision. `Filter` and `Unique` in
watchdog/patterns.go are exported helpers that neither main.go nor
watchdog/watchdog.go calls.

This project models three parts of that system in Dafny and proves
properties of the model:

- **The event loop** (`lib/inotify_utils.c`), split over three modules.
  - `InotifyRecords` models the byte layout of the records one `read`
    returns.
  - `InotifyUtils` covers:
    - `is_excluded`;
    - building the watch table in `watch_events`;
    - resolving a handle in `get_filename`;
    - the time stamp of `run_in_background`;
    - the record walk and the per-record dispatch inside `handle_events`.
  - `CStrings` holds the `strncpy`/NUL-terminator behaviour shared by the
    C code.

  The dispatch is stated as a pure transition (`Step`, then `Walk` over
  all the records of a read). The class `EventLoop` holds the watch table
  array, `list_size`, `last_reload_time` and the log of removed watches
  and started reloads. Its methods are proved to move that state exactly
  as `Step`/`Walk` say.
- **The process supervisor** (`lib/process_utils.c`), in `ProcessUtils`.
  - The class `Supervisor` holds `prev_child_pid`, the global `command`
    buffer and the ordered log of the calls it makes: kill, set pid,
    fork, exit, wait, report.
  - `kill` and `fork` results and the child's exit status come in as an
    `Outcome`.
  - The methods are proved against the transition functions `KillStep`
    and `ReloadStep`. `Run` folds `ReloadStep` over a sequence of
    outcomes, and a lemma about it covers a whole run of reloads. The
    other lemmas state the ordering and bookkeeping properties of these
    functions.
- **The path-list utilities** (`watchdog/patterns.go`), in `Patterns`:
  - `DefaultExcludes`;
  - `Filter`, together with the closure it uses and Go's `filepath.Base`;
  - `Unique`, where Go's unspecified map iteration order is modelled by a
    nondeterministic choice.

Points about the code that the model follows:

- The last reload time and the child pid are guarded by two separate
  mutexes (lib/inotify_utils.c:20, lib/process_utils.c:11).
- The time is stamped in `run_in_background` (lib/inotify_utils.c:115),
  right after the reload thread is started, whatever later happens to the
  fork. The model stamps it there.
- For a directory watch, the code checks the child path
  `D + "/" + name` and then the directory's own path
  (lib/inotify_utils.c:163-176). The model checks both.
- `RELOAD_TIMEOUT` is 1 (lib/inotify_utils.c:17), although its comment
  says two seconds. The model uses 1.
- `list_size` is never initialised (lib/inotify_utils.c:120). The model
  starts it at 0.

## Model

| member | source | states |
|---|---|---|
| CStrings.StrNCopy | lib/process_utils.c:65 | strncpy writes the characters of the source up to its end, then NULs, into exactly the first n cells, and leaves the rest of the buffer unchanged |
| CStrings.StrNCpyReadBack | lib/inotify_utils.c:97-98 | a buffer filled by strncpy(n) and terminated right after reads back as the first n characters of the source, whatever lies past the terminator |
| CStrings.CStrOfTerminated | lib/inotify_utils.c:102 | a terminated C string reads back as exactly its content, whatever follows the NUL |
| InotifyRecords.RecordsRoundTrip | lib/inotify_utils.c:148-149 | laying well-formed records end to end gives a buffer the walk tiles exactly, and reading it record by record gives back the same records in order |
| InotifyRecords.EventAtEncode | lib/inotify_utils.c:149 | the record cast at the head of a buffer has the encoded wd, mask, cookie, len and name, and the next record starts EVENT_SIZE + len bytes later |
| InotifyRecords.OffsetsAdvance | lib/inotify_utils.c:184 | in a tiled buffer every record has its own start offset, inside the buffer and strictly after the previous one, so each record is visited once |
| InotifyUtils.IsExcluded | lib/inotify_utils.c:64-75 | false when the exclude array is NULL or the path is empty; otherwise true iff the path equals one of the first num_excluded entries |
| InotifyUtils.CountIncludedAll | lib/inotify_utils.c:79-91 | the count of registered patterns equals the number of patterns iff no pattern is excluded |
| InotifyUtils.WatchEvents | lib/inotify_utils.c:77-92 | succeeds iff every non-excluded pattern got a watch; then slot i holds (handle, i, pattern i) for each registered pattern, excluded slots are untouched, and list_size grew by the number of registered patterns |
| InotifyUtils.FirstMatch | lib/inotify_utils.c:95-96 | the result is the first slot below list_size whose handle matches, and when there is none no slot below list_size matches |
| InotifyUtils.GetFilename | lib/inotify_utils.c:94-103 | on a match, the buffer holds strncpy of the first matching slot's name and a final NUL; otherwise only name[0] is cleared; either way it reads back as the looked-up name truncated to name_size-1 |
| InotifyUtils.EventLoop.constructor | lib/inotify_utils.c:119-121 | the loop starts with unwritten slots, list_size 0, last_reload_time 0, nothing removed and nothing reloaded |
| InotifyUtils.EventLoop.RunInBackground | lib/inotify_utils.c:111-116 | a reload is started and its time becomes last_reload_time; nothing else changes |
| InotifyUtils.EventLoop.Setup | lib/inotify_utils.c:127-131 | the table is built as watch_events builds it, list_size is the number of registered patterns, and the initial load is stamped |
| InotifyUtils.EventLoop.Resolve | lib/inotify_utils.c:151-155 | the record's handle reads as its looked-up path truncated to PATH_MAX-1 |
| InotifyUtils.EventLoop.HandleRecord | lib/inotify_utils.c:150-183 | one record moves the loop state exactly as Step says and leaves the table and list_size alone |
| InotifyUtils.EventLoop.HandleRecordAt | lib/inotify_utils.c:149-184 | the record at offset p is dispatched as Step says and the next offset is p + EVENT_SIZE + len |
| InotifyUtils.EventLoop.HandleRead | lib/inotify_utils.c:140-185 | a failed read changes nothing and reports failure; a successful one dispatches every record of the buffer in order, record k at clock(k), giving exactly Walk's state |
| InotifyUtils.WalkAdvance | lib/inotify_utils.c:184 | walking from offset p is dispatching the record at p and then walking from p + EVENT_SIZE + len |
| InotifyUtils.RegisteredEventsAreSubscribed | lib/inotify_utils.c:88 | every event bit a watch is registered for passes the broader loop mask |
| InotifyUtils.IgnoredRecordIsSkipped | lib/inotify_utils.c:150 | an IN_IGNORED record has no bit in the mask and changes nothing |
| InotifyUtils.StepEffects | lib/inotify_utils.c:157-182 | a record removes its watch iff it passes the mask and its child path or own path is excluded; it starts a reload iff it passes the mask, is not dropped and now - last > RELOAD_TIMEOUT; a reload stamps now; nothing else changes |
| InotifyUtils.UnresolvedHandleCanReload | lib/inotify_utils.c:171-181 | a handle the table cannot resolve reads as "", which is never excluded; provided stat does not report "" as a directory, the record starts a reload when the timeout has passed |
| InotifyUtils.StepKeepsDebounced | lib/inotify_utils.c:178-181 | one record keeps successive reloads strictly more than RELOAD_TIMEOUT apart, the last one stamped as last_reload_time |
| InotifyUtils.WalkKeepsDebounced | lib/inotify_utils.c:178-181 | over any walk and clock, successive reloads stay strictly more than RELOAD_TIMEOUT apart and the last one is last_reload_time |
| InotifyUtils.WalkRemovesDropped | lib/inotify_utils.c:163-176 | the watches a walk removes are exactly those of its dropped records, in record order |
| InotifyUtils.WalkReloadsBounded | lib/inotify_utils.c:178-182 | a walk only appends reloads, at most one per record that passes the mask and the exclusions |
| InotifyUtils.CloseRecordsReloadAtMostOnce | lib/inotify_utils.c:179 | two records at most RELOAD_TIMEOUT apart start at most one reload |
| InotifyUtils.SpacedRecordsBothReload | lib/inotify_utils.c:179-181 | two qualifying records spaced more than RELOAD_TIMEOUT apart, the first past the timeout, both start a reload stamped with their own times |
| InotifyUtils.NothingExcludedReloads | lib/inotify_utils.c:157-181 | for any configuration with no exclude array or an exclude count of zero or less, any subscribed record (a file created in a watched directory, say) starts a reload stamped with its time once the timeout has passed |
| InotifyUtils.NothingExcludedKeepsWatches | lib/inotify_utils.c:163-176 | with no exclude array or an exclude count of zero or less, a walk over any records never removes a watch |
| InotifyUtils.ExcludedChildNeverReloads | lib/inotify_utils.c:159-168 | for any configuration and any records that are each subscribed and resolve to a directory whose child path is excluded, the walk removes one watch per record, in order, and leaves the reloads and last_reload_time unchanged, whatever the clock |
| InotifyUtils.AsWrittenTableLosesWatch | lib/inotify_utils.c:89-90 | with the first pattern excluded, the second is stored at slot 1 while list_size is 1, so its handle resolves to "" and its excluded child starts a reload |
| InotifyUtils.CompactTable | lib/inotify_utils.c:89-90 | the compact table has exactly one slot per registered pattern |
| InotifyUtils.WatchEventsCompact | lib/inotify_utils.c:77-92 | with entries stored at list_size from 0, the first list_size slots are exactly the registered watches in pattern order and the rest are untouched |
| InotifyUtils.CompactTableEntries | lib/inotify_utils.c:89 | every slot of the compact table is (handle, i, pattern i) for a registered pattern i |
| InotifyUtils.CompactTableAt | lib/inotify_utils.c:89-90 | registered pattern j sits at the number of registered patterns before it |
| InotifyUtils.CompactLookupComplete | lib/inotify_utils.c:94-103 | with the compact table, every registered watch's handle resolves to its own pattern, assuming no two registered patterns name the same object (inotify gives one handle per object, so two patterns naming one object through a link share a handle and resolve to the first) |
| InotifyUtils.CompactTableKeepsWatch | lib/inotify_utils.c:157-168 | in the as-written example's configuration, the compact table resolves the handle and the excluded child removes the watch instead of reloading |
| InotifyUtils.ResolvedChildDropsWatch | lib/inotify_utils.c:157-168 | for any configuration, a subscribed record whose handle first matches a slot holding a directory name shorter than PATH_MAX, with that directory's child path excluded, removes the record's watch and changes nothing else |
| ProcessUtils.Supervisor.constructor | lib/process_utils.c:12 | the supervisor starts tracking no child, with no calls made |
| ProcessUtils.Supervisor.SafeUpdatePid | lib/process_utils.c:14-18 | the tracked pid becomes the given one |
| ProcessUtils.Supervisor.KillPreviousProcess | lib/process_utils.c:20-28 | no call for -1; otherwise a kill, and the pid is cleared only when the kill was delivered |
| ProcessUtils.Supervisor.ReloadProcess | lib/process_utils.c:30-58 | the state moves exactly as ReloadStep says, and the process exits iff the fork failed |
| ProcessUtils.Supervisor.RegisterCommand | lib/process_utils.c:60-67 | exits, leaving the buffer alone, iff cmd_len does not fit; otherwise the buffer is strncpy of cmd_len characters, a NUL at cmd_len, and the rest unchanged |
| ProcessUtils.Registered | lib/process_utils.c:61-66 | a command is registered iff 0 <= cmd_len < capacity |
| ProcessUtils.RegisteredReadsBack | lib/process_utils.c:65-66 | a registered command reads back as its first cmd_len characters in a buffer of the same size |
| ProcessUtils.ReloadAppends | lib/process_utils.c:30-58 | a reload appends exactly the kill calls and then the fork calls to the log, and tracks the new child after a successful fork |
| ProcessUtils.KillCallsCount | lib/process_utils.c:22-27 | kill_previous_process tries to kill exactly the pid it is given unless it is -1, and creates no child |
| ProcessUtils.ForkCallsCount | lib/process_utils.c:34-53 | the calls from fork on kill nothing and create exactly the forked child, if any |
| ProcessUtils.ReloadCounts | lib/process_utils.c:30-58 | a reload adds one kill attempt of the tracked pid, if any, and one new child, if the fork succeeded |
| ProcessUtils.NoKillWithoutChild | lib/process_utils.c:22 | with no tracked child a reload makes no kill attempt |
| ProcessUtils.KillClearsOnlyOnDelivery | lib/process_utils.c:23-26 | the pid is cleared iff a kill was attempted and delivered; a failed kill leaves it unchanged |
| ProcessUtils.KillBeforeFork | lib/process_utils.c:32-34 | a reload's calls contain the fork exactly once, right after the kill calls, and every kill call comes before the fork |
| ProcessUtils.ChildTrackedBeforeWait | lib/process_utils.c:49-53 | after a successful fork the child's pid is set before the wait for it, and nothing sets the pid after that |
| ProcessUtils.ForkFailureKeepsPid | lib/process_utils.c:35-38 | a failed fork ends in the exit, creates no child and leaves the pid where the kill left it |
| ProcessUtils.StatusOnlyReported | lib/process_utils.c:54-56 | the child's exit status changes nothing but the report: the same pid and the same calls before it |
| ProcessUtils.ReloadKeepsTracking | lib/process_utils.c:14-18 | prev_child_pid always equals the pid the last safe_update_pid call set |
| ProcessUtils.ReloadKeepsOrderly | lib/process_utils.c:30-58 | a successful reload keeps the newest child tracked and every older child killed exactly once, in order |
| ProcessUtils.RunKillsEveryOlderChild | lib/process_utils.c:30-58 | over any run of reloads, every child but the newest has had exactly one kill attempt, in creation order, and the newest is tracked; after a fork failure ends the run, the newest has had its kill attempt too |
| ProcessUtils.StartIsOrderly | lib/process_utils.c:12 | the initial state satisfies both invariants |
| Patterns.TrimShape | watchdog/patterns.go:96 | trimming keeps a prefix that does not end in '/' and removes only '/' characters |
| Patterns.AfterLastSlashShape | watchdog/patterns.go:96 | the last segment is a suffix without '/' and, when shorter than the path, is preceded by '/' |
| Patterns.BaseShape | watchdog/patterns.go:96 | filepath.Base is never empty and is either "/" or a name without '/' |
| Patterns.BaseIsSuffix | watchdog/patterns.go:96 | the Base of a path that does not end in '/' is a suffix of it |
| Patterns.BaseOfName | watchdog/patterns.go:96 | a name without '/' is its own Base |
| Patterns.EndsWithExcludedPath | watchdog/patterns.go:94-101 | true iff the path ends with some entry or with that entry's Base |
| Patterns.Filter | watchdog/patterns.go:92-109 | returns exactly the kept paths of the list, in order |
| Patterns.KeptAtPositions | watchdog/patterns.go:103-108 | the i-th result is the list element at the i-th kept position, so there are at most len(list) results |
| Patterns.KeptAtIncreasing | watchdog/patterns.go:103-108 | the kept positions strictly increase, so the result is an order-preserving subsequence |
| Patterns.KeptAtComplete | watchdog/patterns.go:103-106 | a position is kept iff its path is neither an entry nor ends with an entry or its Base |
| Patterns.KeptMembers | watchdog/patterns.go:94-106 | a path is in the result iff it is in the list and is neither an entry nor ends with one or its Base |
| Patterns.KeptAvoidsExcluded | watchdog/patterns.go:104 | no result equals an entry or ends with one |
| Patterns.KeptNoExcludes | watchdog/patterns.go:94-101 | with no entries, Filter returns the list unchanged |
| Patterns.KeptAppend | watchdog/patterns.go:103-107 | filtering a concatenation is filtering each part, in order |
| Patterns.KeptIdempotent | watchdog/patterns.go:92-109 | filtering a filtered list again changes nothing |
| Patterns.MembershipImpliedBySuffix | watchdog/patterns.go:96-104 | the membership test adds nothing: a path is kept iff the suffix closure rejects it |
| Patterns.EmptyEntryDropsAll | watchdog/patterns.go:96 | an empty entry is a suffix of every path, so Filter returns nothing |
| Patterns.EntryExcludesItsBase | watchdog/patterns.go:96 | a path ending with an entry's Base is dropped even when it does not end with the entry |
| Patterns.DefaultDropsSuffixedPaths | watchdog/patterns.go:13-27 | for any list, every path ending with one of the default entries is absent from the result of filtering with the default list |
| Patterns.DefaultDropsGitDirectory | watchdog/patterns.go:13-27 | for any list, every path ending with ".git" is absent from the result of filtering with the default list |
| Patterns.Unique | watchdog/patterns.go:111-122 | the result holds each distinct path of the list exactly once and nothing else, in any order |
| Patterns.UniqueNoLonger | watchdog/patterns.go:112-121 | Unique's result is never longer than its input |
| Patterns.UniqueUpToOrder | watchdog/patterns.go:118-120 | any two results for the same input are reorderings of each other |
| Patterns.UniqueIdempotent | watchdog/patterns.go:111-122 | Unique of a Unique result is a reordering of it |

## Left out

- The inotify system calls are inputs or logs, not calls:
  - `inotify_init` and `close` are left out.
  - Each `inotify_add_watch` answer is an input, one per pattern; -1 models the exit on a failed watch.
  - `inotify_rm_watch` is recorded as a handle in the `removed` log.
  - The blocking `read` is one call: its byte count (-1 for the fatal error) and its buffer are inputs.
- The endless outer loop of `handle_events` is modelled one read at a time (`EventLoop.HandleRead`).
- `stat` and `is_directory` are an input set of the paths that are directories, one set per read. The code calls `stat` once per record (lib/inotify_utils.c:157), so its answer for a path can change within a read; the model does not capture that. A failed `stat` (of "" for an unresolved handle, say) leaves `struct stat` unset, so `S_ISDIR` reads an unset field; the model covers either answer, because the set may or may not contain the path.
- `time(NULL)` is a clock input with one reading per record. The model uses that reading both for the comparison and for the stamp. The code reads the clock again inside `run_in_background`.
- The pthread mutexes, the reload thread and detach, and every interleaving of concurrent reloads with the loop are left out. The model runs the reload's bookkeeping and the loop's updates sequentially.
- `fork`, `execl`, `waitpid` and `kill` appear only as outcomes. The child side of `fork` (the `execl` of `/bin/sh -c` and its exit) is not modelled, and neither is a `waitpid` failure.
- Logging (`debug_log`, `printf`, `perror`) and the verbose switches are left out.
- `malloc` failure in `handle_events` and the final `free` are left out.
- A record with `len == 0` reads as the empty name. The C code reads past the record there.
- Byte order is little-endian, as on the hosts the code runs on.
- The `strcat` into the PATH_MAX `complete_path` can overflow; the model builds the full path without a length limit. The resolved name is truncated to PATH_MAX-1, as `get_filename` does.
- Unwritten table slots, left uninitialised by the C code, are `None` and never match a handle.
- The capacity of the global `command` buffer is declared in include/process_utils.h, which is not part of this model. The model uses the length of the buffer given to the constructor.
- `GlobExpand` is left out: it depends on the working directory, globbing and a concurrent directory walker.
- watchdog/watchdog.go and main.go are left out: they marshal Go strings into C arrays and parse flags.
- `filepath.Base` is modelled for '/' as the only separator.
- The clock is indexed by record: record k of a read is handled at `clock(k)`. The code reads the clock only for records that reach the debounce check. Any sequence of those readings is still expressible, because the clock is an arbitrary function.
- The event loop keeps the watch table as `watch_events` builds it, so that the loop behaves as the code does. The corrected construction (`InotifyUtils.WatchEventsCompact`) is proved separately; see Findings.

## Findings

| source | as written | input that shows it | evidently intended | confidence | as-written member | corrected member |
|---|---|---|---|---|---|---|
| lib/inotify_utils.c:89-90 | `watch_events` stores each watch at its pattern index `i` but counts only registered patterns in `list_size`; `get_filename` scans only the first `list_size` slots | patterns `["/w/a", "/w/b"]`, excludes `["/w/a", "/w/b/tmp.txt"]`: the watch of `/w/b` is at slot 1 with `list_size == 1`, so its handle resolves to "" and a change to the excluded `/w/b/tmp.txt` starts a reload instead of removing the watch | store each watch at `list[*list_size]`, so that the first `list_size` slots are exactly the registered watches and every registered handle resolves to its pattern | not executed | InotifyUtils.AsWrittenTableLosesWatch | InotifyUtils.CompactLookupComplete |
