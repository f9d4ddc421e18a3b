# Hide-list engine model

A Dafny model of the in-memory engine behind MagiskHide's process hiding
(`native/jni/zygisk/hide/utils.cpp`). Its parts:

- **The hide list** (`pkg_to_procs`): package name to a set of process names.
- **The app-ID index** (`app_id_to_pkgs`): app ID to the hidden packages seen with it in the app-data tree.
- **The cached inode of `packages.xml`**, which decides when the index is rebuilt.
- **The `/proc` handle**, and the kills the engine sends.
- **The `hide_enabled` flag**, with its launch / stop / auto-start life cycle.
- **The operations**: the name validator, add / remove / list of hide entries, and the hot-path query `is_hide_target` with its matching rules.

The globals of `utils.cpp` that the engine updates live in one class,
`HideEngine.HideState`. The one exception is `cached_manager_app_id`, which
`update_uid_map` resets; it is declared outside this file (see "Left out").
Its methods update the fields in place: loops over the app-data tree, the
process table, the list and the buckets. Each method is proved equal to a
pure function of the old state and the environment (`HideSpec`):
`(Snap(), result) == XSpec(old(Snap()), env, …)`. The properties the
source promises are proved about those functions in `HideProperties` and
next to the pure building blocks.

Modules, in dependency order:

| module | file | contents |
|---|---|---|
| `HideStrings` | strings.dfy | `Option`, status codes, `str_starts` / `str_ends`, ASCII `isalnum`, the byte-wise order of `StringCmp` |
| `Validation` | validate.dfy | `validate` |
| `ProcKill` | proc_kill.dfy | `crawl_procfs`, `proc_name_match`, `kill_process`, `str_ends_safe` |
| `HideList` | hide_list.dfy | the insert of `add_hide_set` and the in-memory part of `rm_hide_list` |
| `UidIndex` | uid_index.dfy | the full rescan of `update_uid_map` and the patch of `update_pkg_uid` |
| `ListWire` | list_wire.dfy | map iteration order and the record layout of `ls_hide_list` |
| `Matcher` | matcher.dfy | the matching tail of `is_hide_target` |
| `HideSpec` | hide_spec.dfy | the state value `Hide`, the environment `Env`, one function per operation |
| `HideEngine` | hide_state.dfy | class `HideState`, the imperative engine |
| `HideProperties` | hide_props.dfy | properties across operations |

What the model takes as input instead of reading it from the system:

- Everything the source reads from the system is a field of the value `Env`:
  - the inode of `packages.xml`;
  - the app-data tree, one directory per user, each a sequence of (entry name, owner uid), where the owner is absent when the stat of the entry fails;
  - the `/proc` table, as (pid, first line of cmdline);
  - the rows of the hide-list query, and whether the query, the INSERT and the DELETE succeed;
  - whether `/proc/self/ns/mnt` exists, `opendir("/proc")` succeeds and the monitor thread starts;
  - `SDK_INT`, and the persisted `HIDE_CONFIG` setting.
- `to_app_id` is an uninterpreted function `toAppId`, fixed per engine.
- The default `max_len` of `is_hide_target` is a constant of the engine.
- A SIGKILL is a pid appended to the log `killed`.

Behaviour the model keeps as the code has it:

- **The long-prefix rule** (lines 431, 439, 455) holds when both names are longer than `max_len` and the *configured* name starts with the *process* name. A process name that merely extends a configured name does not match through it.
- **`max_len` is compared against `size_t` lengths**, so a negative `max_len` turns the long-prefix rule off.
- **The WebView-zygote exclusion lives in `str_ends_safe` only.** Launch's `_zygote` kill spares `webview_zygote`, but `is_hide_target` can still answer true for it.
- **A failed database load in `init_list` returns false but keeps the partially filled, allocated list.** Every later `init_list` then succeeds at once, with no index allocated.
- **`add_hide_list` patches the index through `update_pkg_uid(*p.first, false)`.** `*p.first` is the process name just inserted, not the package. The index can therefore receive a name that is not on the list (`HideProperties.AddIndexesProcessName`).
- **`stop_magiskhide` keeps `pkg_xml_ino`.** A relaunch while `packages.xml` is unchanged leaves the fresh index empty (`HideProperties.RelaunchKeepsEmptyIndex`).
- **When the monitor thread fails to start, `launch_magiskhide` returns `DAEMON_ERROR` with `hide_enabled` still true.**
- **The two scans read a failed stat differently.** The rescan ignores the result of `xfstatat` (58-59), so an entry whose stat fails is filed under the zeroed `st_uid`, uid 0. `update_pkg_uid` tests `fstatat(...) == 0` (85) and moves on to the next user. `UidIndex.FailedStatDiffersBetweenScans` shows a tree where the two disagree.
- **After a failed load the list is allocated and the index is not.** Every operation stays defined there except on the paths that reach the missing index. The predicates `HideSpec.UidMapCrashes`, `PkgUidCrashes`, `AddCrashes`, `RmCrashes`, `LaunchCrashes` and `TargetCrashes` name exactly those paths, and each operation requires only that its own crash path is not taken. So a duplicate add still reports HIDE_ITEM_EXIST, an unknown removal HIDE_ITEM_NOT_EXIST, and an isolated caller matched by a sentinel process still gets true (`HideProperties.FailedLoadAnswersIsolatedCaller`).

## Model

| member | source | states |
|---|---|---|
| Validation.ScanPkg | native/jni/zygisk/hide/utils.cpp:162-171 | the package loop accepts exactly the names made of alphanumerics, `_` and `.` that contain a dot (or follow one already seen) |
| Validation.ScanProc | native/jni/zygisk/hide/utils.cpp:173-178 | the process loop accepts exactly names of alphanumerics, `_`, `:` and `.` |
| Validation.ScanIsolated | native/jni/zygisk/hide/utils.cpp:153-160 | the isolated loop accepts exactly names whose part before the first `:` is alphanumerics, `_` and `.`; the suffix after `:` is free |
| Validation.Validate | native/jni/zygisk/hide/utils.cpp:147-181 | for the sentinel package only the isolated process rule applies; otherwise both the package rule and the process rule must hold |
| Validation.ValidatedPkgHasNoBar | native/jni/zygisk/hide/utils.cpp:147-181 | an accepted package never contains the bar character that separates the halves of a listing record |
| Validation.RejectsDollarInPackage | native/jni/zygisk/hide/utils.cpp:162-171 | `com.foo$` is rejected |
| Validation.AcceptsIsolatedWithSuffix | native/jni/zygisk/hide/utils.cpp:153-160 | `proc:123` under the sentinel is accepted |
| Validation.DefaultProcessOfValidPackage | native/jni/zygisk/hide/utils.cpp:219-221 | for an ordinary valid package, the default process (the package itself) is always accepted |
| ProcKill.Victims | native/jni/zygisk/hide/utils.cpp:136-145 | every victim is a pid of a matching process |
| ProcKill.MatchingPidsMembers | native/jni/zygisk/hide/utils.cpp:110-132 | a pid is a hit exactly when some table entry with a positive pid has a readable cmdline that passes the filter |
| ProcKill.MatchingPidsFirst | native/jni/zygisk/hide/utils.cpp:110-118 | no hit means no pid; otherwise the first pid belongs to the first hit in table order |
| ProcKill.SingleKillIsFirstHit | native/jni/zygisk/hide/utils.cpp:136-145 | without `multi` at most one process dies: the first hit, or none when nothing matches |
| ProcKill.MultiKillIsEveryHit | native/jni/zygisk/hide/utils.cpp:136-145 | with `multi` exactly the hits die |
| ProcKill.NonPositivePidsNeverKilled | native/jni/zygisk/hide/utils.cpp:113-116 | the crawl never hands a non-positive pid to the callback, so none is killed |
| ProcKill.ZygoteFilterSparesWebview | native/jni/zygisk/hide/utils.cpp:320-325 | `webview_zygote` ends with `_zygote`, yet the `str_ends_safe` kill never selects it |
| ProcKill.KillProcess | native/jni/zygisk/hide/utils.cpp:105-145 | the crawl loop with early stop kills exactly `Victims` |
| HideList.AddSet | native/jni/zygisk/hide/utils.cpp:184-186 | the insert reports whether the pair was new; only the package's set grows, by the process; other packages are unchanged; a known pair leaves the map as it was |
| HideList.RemoveEntry | native/jni/zygisk/hide/utils.cpp:257-277 | something is removed exactly when the package is present and the process is empty or listed; an empty process drops the package; otherwise only the pair goes and the package's other processes stay; other packages are untouched |
| HideList.RemoveKeepsNoEmptySets | native/jni/zygisk/hide/utils.cpp:266-272 | removing the last process of a package removes the package, so no package is left with an empty set |
| HideList.AddIsIdempotent | native/jni/zygisk/hide/utils.cpp:184-186 | a second insert of the same pair changes nothing and reports it as known |
| HideList.AddThenRemove | native/jni/zygisk/hide/utils.cpp:183-277 | inserting a new pair and then removing it restores the original list |
| UidIndex.Rescan | native/jni/zygisk/hide/utils.cpp:45-72 | every bucket of the rebuilt index is one package of the list, alone |
| UidIndex.RescanSpec | native/jni/zygisk/hide/utils.cpp:45-72 | an app ID gets a bucket exactly when a listed package is met with it, and the bucket holds the first such package in user and directory order |
| UidIndex.Lookup | native/jni/zygisk/hide/utils.cpp:84-86 | a user's directory gives the stat result of its first entry of that name: nothing when there is no such entry or its `fstatat` fails |
| UidIndex.FirstOwner | native/jni/zygisk/hide/utils.cpp:83-98 | the user loop stops at the first user directory whose `fstatat` of the package succeeds, or finds nothing when none does |
| UidIndex.FirstOwnerInFlatten | native/jni/zygisk/hide/utils.cpp:83-98 | a found owner is the successful stat result of some entry of the tree with that name |
| UidIndex.FirstOwnerWhenStatsOk | native/jni/zygisk/hide/utils.cpp:83-98 | when every stat succeeds, any entry of the tree with that name makes the loop find an owner |
| UidIndex.PkgUid | native/jni/zygisk/hide/utils.cpp:75-100 | the index is untouched when the data directory cannot be opened or no user's stat finds the package; no empty bucket appears |
| UidIndex.PatchIndex | native/jni/zygisk/hide/utils.cpp:86-96 | only the owner's app-ID bucket changes. Add puts the package in, creating the bucket. Remove takes it out and drops an emptied bucket. No empty bucket appears, and consistency with the list is kept |
| UidIndex.RescanLocates | native/jni/zygisk/hide/utils.cpp:45-100 | after a rescan of a tree whose users agree on app IDs and whose stats all succeed, `update_pkg_uid` finds every indexed package under the app ID of its bucket |
| UidIndex.FailedStatDiffersBetweenScans | native/jni/zygisk/hide/utils.cpp:58-85 | with a failed stat in user 0 and a good one in user 10, the rescan files the package under uid 0's app ID while the patch finds uid 10123, so the rescanned index does not locate the package |
| UidIndex.RemovalClearsPackage | native/jni/zygisk/hide/utils.cpp:75-100 | when the tree locates the package, a removal patch takes it out of every bucket |
| ListWire.Sorted | native/jni/zygisk/hide/utils.cpp:307-314 | the iteration order of a `StringCmp` set holds each element once and is strictly ascending |
| ListWire.MapOrderMembers | native/jni/zygisk/hide/utils.cpp:307-314 | the listing holds exactly the (package, process) pairs on the list |
| ListWire.ListProcs | native/jni/zygisk/hide/utils.cpp:308-313 | the inner loop yields the package's records in ascending process order |
| ListWire.ListEntries | native/jni/zygisk/hide/utils.cpp:307-314 | the nested loops yield the pairs in map order: packages ascending and, within each, processes ascending |
| ListWire.Records | native/jni/zygisk/hide/utils.cpp:309-312 | each pair yields two words, so the reply length is twice the number of pairs; what the words hold is proved by `RecordsRoundTrip` |
| ListWire.RecordsRoundTrip | native/jni/zygisk/hide/utils.cpp:305-316 | a reader splitting each record at its first bar character recovers the pairs, up to the zero terminator, when no package holds one |
| ListWire.ListingReadsBack | native/jni/zygisk/hide/utils.cpp:297-318 | a successful listing starts with DAEMON_SUCCESS and reads back as exactly the listed pairs in map order |
| Matcher.AnyIsolatedHit | native/jni/zygisk/hide/utils.cpp:429-443 | an isolated loop answers true exactly when some target passes the long-prefix rule or begins the process name |
| Matcher.AnyListsProcess | native/jni/zygisk/hide/utils.cpp:450-453 | true exactly when some package of the bucket lists the process |
| Matcher.AnyAppHit | native/jni/zygisk/hide/utils.cpp:454-459 | true exactly when some package of the bucket equals the process name or passes the long-prefix rule |
| Matcher.MatchTarget | native/jni/zygisk/hide/utils.cpp:425-461 | the matching tail of `is_hide_target` answers `Matches`: the isolated branch for app IDs from 90000, the own bucket otherwise |
| Matcher.NoBucketNoTarget | native/jni/zygisk/hide/utils.cpp:447-449 | an ordinary app ID without a bucket is never a target |
| Matcher.ListedProcessIsTarget | native/jni/zygisk/hide/utils.cpp:450-453 | a process listed under a package of the caller's bucket is a target |
| Matcher.OnlyOwnBucketMatters | native/jni/zygisk/hide/utils.cpp:445-461 | for an ordinary app ID, other buckets play no part in the answer |
| Matcher.IsolatedPrefixIsTarget | native/jni/zygisk/hide/utils.cpp:429-435 | an isolated process whose name begins with a sentinel entry is a target, whatever the index holds |
| Matcher.LongPrefixRunsOneWay | native/jni/zygisk/hide/utils.cpp:454-459 | a long package name matches a shorter process that begins it, but not a longer process that extends it |
| Matcher.NegativeMaxLenDisablesLongPrefix | native/jni/zygisk/hide/utils.cpp:431 | a negative `max_len`, converted against `size_t` lengths, disables the long-prefix rule |
| Matcher.WebviewZygoteCanBeTarget | native/jni/zygisk/hide/utils.cpp:425-443 | `webview_zygote` is a target once the sentinel lists a prefix of it: the exclusion does not apply to the query |
| HideSpec.Initial | native/jni/zygisk/hide/utils.cpp:17-30 | the start state already satisfies the shape invariant and list consistency that every operation keeps, and is not a failed load |
| HideSpec.UidMapSpec | native/jni/zygisk/hide/utils.cpp:32-73 | defined except where it dereferences a missing map. An unchanged inode changes nothing. A changed one caches the inode and rebuilds the index from the tree, or empties it when the tree cannot be opened; every bucket is then one listed package. The shape invariant and list consistency are kept |
| HideSpec.PkgUidSpec | native/jni/zygisk/hide/utils.cpp:75-100 | defined except where the patch reaches a missing index. Only the index changes, as `PkgUid` says, and nothing changes when no user's stat finds the package. The shape invariant is kept |
| HideSpec.AddKills | native/jni/zygisk/hide/utils.cpp:188-193 | a new sentinel entry kills every process starting with it; an ordinary entry kills at most one process, the first whose cmdline equals it |
| HideSpec.AddSetSpec | native/jni/zygisk/hide/utils.cpp:183-195 | the flag says whether the pair was new. The list afterwards holds exactly the old pairs plus this one. A known pair changes nothing; a new one kills its matching processes. The index, inode and flags are untouched |
| HideSpec.LoadRows | native/jni/zygisk/hide/utils.cpp:203-206 | feeding the database rows one by one leaves exactly the old pairs plus the rows on the list, and only adds kills |
| HideSpec.InitSpec | native/jni/zygisk/hide/utils.cpp:197-217 | an allocated list makes it a successful no-op. Otherwise the list is exactly the database rows. A failed load reports false and does not allocate the index; success allocates the index and rescans. Invariant and consistency are kept |
| HideSpec.AddListSpec | native/jni/zygisk/hide/utils.cpp:219-243 | defined on every path but a patch of a missing index. HIDE_INVALID_PKG exactly when validation of the (defaulted) pair fails, and then nothing changes. A failed `init_list` gives DAEMON_ERROR. After a good one, HIDE_ITEM_EXIST exactly when the pair is already listed. The shape invariant is kept |
| HideSpec.RmListSpec | native/jni/zygisk/hide/utils.cpp:251-289 | defined on every path but a patch of a missing index. A failed `init_list` gives DAEMON_ERROR; after a good one, HIDE_ITEM_NOT_EXIST exactly when nothing is removed. The list stays allocated, the flags stay, and the shape invariant is kept |
| HideSpec.LsSpec | native/jni/zygisk/hide/utils.cpp:297-318 | the state is that after `init_list`; the reply starts with DAEMON_SUCCESS or DAEMON_ERROR as `init_list` succeeded |
| HideSpec.LaunchKills | native/jni/zygisk/hide/utils.cpp:367-371 | launch kills only positive pids |
| HideSpec.LaunchSpec | native/jni/zygisk/hide/utils.cpp:343-389 | defined unless the final `update_uid_map` crashes. Already enabled: success, no change. No mount namespace: HIDE_NO_NS, no change. Success implies hiding is on, and a first enable leaves `/proc` open. Invariant and consistency are kept |
| HideSpec.StopSpec | native/jni/zygisk/hide/utils.cpp:391-406 | always DAEMON_SUCCESS with hiding off. Both maps are freed only if hiding was on; otherwise nothing changes. The inode, the `/proc` handle and the kill log stay |
| HideSpec.AutoStartSpec | native/jni/zygisk/hide/utils.cpp:408-418 | defined unless the launch it starts crashes. Nothing changes when hiding is on or the setting is off; the shape invariant is kept |
| HideSpec.IsHideTargetSpec | native/jni/zygisk/hide/utils.cpp:420-462 | defined except where it reaches a missing map or a package of the caller's bucket that is off the list. A failed `init_list` answers false. With an index, the answer is `Matches` on the refreshed maps. An isolated caller matched by a sentinel process gets true even without an index. The flag is unchanged, the list is allocated, and invariant and consistency are kept |
| HideSpec.CheckUidMapSpec | native/jni/zygisk/hide/utils.cpp:470-477 | 0 while hiding is off. Otherwise 1 exactly when `is_hide_target` answers true; the answer is always 0 or 1, and the shape invariant is kept |
| HideEngine.HideState.constructor | native/jni/zygisk/hide/utils.cpp:17-30 | the fresh engine is in the initial state |
| HideEngine.HideState.UpdateUidMap | native/jni/zygisk/hide/utils.cpp:32-73 | the user and entry loops leave the state `UidMapSpec` describes |
| HideEngine.HideState.ScanUser | native/jni/zygisk/hide/utils.cpp:58-67 | scanning one user's directory extends the rescan by that directory |
| HideEngine.HideState.UpdatePkgUid | native/jni/zygisk/hide/utils.cpp:75-100 | the user loop with early exit leaves the state `PkgUidSpec` describes: exactly the bucket `PkgUid` names is patched, and nothing else |
| HideEngine.HideState.AddHideSet | native/jni/zygisk/hide/utils.cpp:183-195 | the new state and flag are those of `AddSetSpec` |
| HideEngine.HideState.InitList | native/jni/zygisk/hide/utils.cpp:197-217 | the row loop leaves the state and answer of `InitSpec` |
| HideEngine.HideState.AddHideList | native/jni/zygisk/hide/utils.cpp:219-243 | new state and status are those of `AddListSpec`; the shape invariant is kept |
| HideEngine.HideState.RmHideList | native/jni/zygisk/hide/utils.cpp:251-289 | new state and status are those of `RmListSpec`; the shape invariant is kept |
| HideEngine.HideState.LsHideList | native/jni/zygisk/hide/utils.cpp:297-318 | the words written and the new state are those of `LsSpec`; the shape invariant is kept |
| HideEngine.HideState.Launch | native/jni/zygisk/hide/utils.cpp:343-389 | new state and status are those of `LaunchSpec`; the shape invariant is kept |
| HideEngine.HideState.Stop | native/jni/zygisk/hide/utils.cpp:391-406 | new state and status are those of `StopSpec`; the shape invariant is kept |
| HideEngine.HideState.AutoStart | native/jni/zygisk/hide/utils.cpp:408-418 | the new state is that of `AutoStartSpec`; the shape invariant is kept |
| HideEngine.HideState.IsHideTarget | native/jni/zygisk/hide/utils.cpp:420-462 | new state and answer are those of `IsHideTargetSpec`; the shape invariant is kept |
| HideEngine.HideState.CheckUidMap | native/jni/zygisk/hide/utils.cpp:470-477 | new state and answer are those of `CheckUidMapSpec` with the default length limit; the shape invariant is kept |
| HideProperties.AddDuplicateChangesNothing | native/jni/zygisk/hide/utils.cpp:228-232 | adding a pair already listed, after a failed load too, never crashes, reports HIDE_ITEM_EXIST and changes nothing beyond `init_list`; on an allocated list it changes nothing at all |
| HideProperties.AddNewPair | native/jni/zygisk/hide/utils.cpp:219-243 | adding a new valid pair adds exactly it, keeps the other packages' sets, and kills its processes. An allocated index is patched for the process name, and the status is that of the INSERT |
| HideProperties.AddInvalidChangesNothing | native/jni/zygisk/hide/utils.cpp:219-224 | in any state, an invalid pair reports HIDE_INVALID_PKG before any initialisation, never crashes, and changes nothing |
| HideProperties.AddKeepsSound | native/jni/zygisk/hide/utils.cpp:230-233 | adding keeps every indexed package on the list, provided the patch names the package itself or finds no owner |
| HideProperties.AddIndexesProcessName | native/jni/zygisk/hide/utils.cpp:230-233 | after `add("com.a", "com.b")` on a tree holding `com.b`, the index holds `com.b`, which is not on the list |
| HideProperties.RmUpdatesList | native/jni/zygisk/hide/utils.cpp:251-289 | after a good `init_list`, also one that finds a failed load: an unknown pair reports HIDE_ITEM_NOT_EXIST and changes nothing more. Otherwise the list is updated as `RemoveEntry` says and the status is that of the DELETE. An allocated index is patched exactly when the package leaves the list |
| HideProperties.RmKeepsSound | native/jni/zygisk/hide/utils.cpp:259-274 | removal keeps every indexed package on the list when the tree locates the removed package |
| HideProperties.RmAfterRescanKeepsSound | native/jni/zygisk/hide/utils.cpp:45-100 | right after a rescan of a tree whose users agree on app IDs and whose stats all succeed, any removal keeps the index consistent with the list |
| HideProperties.LsReadsBack | native/jni/zygisk/hide/utils.cpp:297-318 | a successful listing reads back as exactly the listed pairs, in map order |
| HideProperties.AddedPairIsListed | native/jni/zygisk/hide/utils.cpp:219-318 | after an `add` reporting success, the next listing shows the pair |
| HideProperties.InitIsIdempotent | native/jni/zygisk/hide/utils.cpp:197-199 | a second `init_list` does nothing and succeeds |
| HideProperties.FailedLoadKeepsList | native/jni/zygisk/hide/utils.cpp:197-217 | a failed first load reports failure. It leaves the list allocated with the rows read and no index, so the next `init_list` succeeds at once |
| HideProperties.LaunchWithoutNamespace | native/jni/zygisk/hide/utils.cpp:349-352 | in any disabled state, also after a failed load, launch without a mount namespace never crashes, reports HIDE_NO_NS and hiding stays off |
| HideProperties.LaunchInitFailure | native/jni/zygisk/hide/utils.cpp:360-364 | a failed first load during launch reports DAEMON_ERROR and lowers the flag again. `/proc` stays open and the list allocated without an index |
| HideProperties.LaunchThreadFailure | native/jni/zygisk/hide/utils.cpp:377-379 | a monitor thread that does not start never crashes and gives DAEMON_ERROR with hiding left on and the index not refreshed |
| HideProperties.LaunchSuccess | native/jni/zygisk/hide/utils.cpp:343-389 | a successful launch turns hiding on and keeps `/proc` open. It kills the USAP pools and app zygotes on SDK 29 and later, and caches the current inode |
| HideProperties.LaunchSparesWebviewZygote | native/jni/zygisk/hide/utils.cpp:367-371 | the kills of launch never hit the WebView zygote |
| HideProperties.RelaunchKeepsEmptyIndex | native/jni/zygisk/hide/utils.cpp:391-406 | stop then launch with `packages.xml` unchanged succeeds and reloads the list, but the index stays empty, so no ordinary app is a target |
| HideProperties.StopIsIdempotent | native/jni/zygisk/hide/utils.cpp:391-406 | stopping twice is stopping once |
| HideProperties.UidMapRebuildsIndex | native/jni/zygisk/hide/utils.cpp:32-73 | a changed inode rebuilds the index from scratch as `RescanSpec` describes |
| HideProperties.UidMapSkipsUnchangedInode | native/jni/zygisk/hide/utils.cpp:34-39 | an unchanged inode leaves the index as it was, however stale |
| HideProperties.RescannedAppIsTarget | native/jni/zygisk/hide/utils.cpp:420-462 | after a rescan, a process listed under the first listed package met with an ordinary app ID is a target for that app |
| HideProperties.TargetDefinedOnAllocatedState | native/jni/zygisk/hide/utils.cpp:420-462 | with both maps allocated, however stale the index, `is_hide_target` is defined for every isolated caller, and for every caller once `packages.xml` changed, because the rescan leaves only listed packages in the buckets |
| HideProperties.StaleOwnBucketIsUndefined | native/jni/zygisk/hide/utils.cpp:447-453 | on the state the add quirk produces, an ordinary caller of the stale bucket with `packages.xml` unchanged reaches the unchecked lookup at 451 |
| HideProperties.FailedLoadAnswersIsolatedCaller | native/jni/zygisk/hide/utils.cpp:420-435 | after a failed load with `packages.xml` unchanged, an isolated caller whose name begins with a sentinel process does not crash and is a target |

## Left out

- Persistence: the SQL statements of `add_hide_list` / `rm_hide_list`, `update_hide_config` and `get_db_settings` are not modelled; their outcomes are the `Env` flags `dbLoadOk`, `dbWriteOk` and `hideConfig`, and the persisted `HIDE_CONFIG` write after launch and stop is not modelled.
- The socket wrappers `add_hide_list(int)`, `rm_hide_list(int)` and the reads of `check_uid_map`: the client's arguments are parameters, and `ls_hide_list`'s writes are the word sequence it returns.
- Logging (`LOGD`, `LOGI`, `LOGW`): no observable state.
- Concurrency: `hide_state_lock`, the early `lock.unlock()` in launch, the atomic flag, `pthread_kill` of the monitor thread, the monitor thread itself (`proc_monitor`) and `test_proc_monitor` are outside a sequential model.
- `hide_sensitive_props` and `hide_late_sensitive_props`: system-property code not part of this model.
- System calls (`stat`, `opendir`, `readdir`, `fstatat`, `open_file`, `access`, `kill`) read from or write to the `Env` snapshot; a killed process stays in the process table.
- `crawl_procfs`: its `rewinddir` is modelled as a walk over the table snapshot. Before the first launch `procfp` is null, and `rewinddir` on it (105-108) is undefined; add, remove and `is_hide_target` reach it through `kill_process`. The model gives that undefined case a defined behaviour: the same walk over the snapshot.
- `proc_name_match`: the 4019-byte buffer and the truncation of long cmdlines by `fgets` are not modelled; the cmdline entry is the string the buffer holds.
- `isalnum` is taken on ASCII only; locale-dependent classes are not modelled.
- User directories that cannot be opened are modelled as empty.
- `hide.hpp` is not part of this model. The model fixes `ISOLATED_MAGIC` to `"isolated"` (`HideStrings.ISOLATED_MAGIC`), and `Validation.ValidatedPkgHasNoBar` and `Validation.RejectsDollarInPackage` rely on that value. The status-code numbers are not modelled: `Status` has one constructor per code.
- `cached_manager_app_id`: `update_uid_map` resets it to -1 at 46 on every rescan. It is declared outside `utils.cpp` and read only by code outside this model, so the model has no field for it.
- C-string truncation: the operations take `const char *` (147, 183, 219, 251) and are fed `.data()` of `std::string` (205, 246-248, 292-294), so a name is cut at its first NUL byte. The model's strings are whole; a client sending an embedded NUL is not modelled.
- `Matcher.LongerThan`: assumes a 64-bit `size_t`. On a 32-bit build a negative `max_len` converts to 2^32 + `max_len`.
- `unique_ptr` ownership and `string_view` lifetimes: a removed package's views in the index would dangle in the source; the model stores strings.
- `HideSpec.UidMapSpec`: requires `!UidMapCrashes`, which excludes only the runs that dereference a missing map: a changed inode with no index (the `clear` at 45), or with no list once the rescan meets an entry (64). Nothing is promised for those undefined runs.
- `HideSpec.PkgUidSpec`: requires `!PkgUidCrashes`, which excludes only the runs where the user loop finds an owner while no index is allocated (88, 95).
- `HideSpec.AddListSpec`: requires `!AddCrashes`, which excludes only a new valid pair whose `update_pkg_uid` (233) then crashes as above.
- `HideSpec.RmListSpec`: requires `!RmCrashes`, which excludes only a removal that takes the package off the list and whose `update_pkg_uid` (262, 270) then crashes.
- `HideSpec.LaunchSpec`: requires `!LaunchCrashes`, which excludes only a launch that gets to `update_uid_map` at 384 and crashes there.
- `HideSpec.AutoStartSpec`: requires `!LaunchCrashes` when the setting asks for a launch.
- `HideSpec.IsHideTargetSpec`: requires `!TargetCrashes`. It excludes only three kinds of run: those that crash in `update_uid_map` (425), those that read the missing index at 437 or 447, and those whose refreshed bucket of an ordinary caller names a package off the list, which the unchecked lookup at 451 would dereference. The last is conservative for the loop order, as described below.
- `HideSpec.CheckUidMapSpec`: requires `!TargetCrashes` when hiding is on.
- `HideEngine.HideState.UpdateUidMap`: requires the same as `HideSpec.UidMapSpec`. With no list it returns before the user loop; the requires allows that only for a tree without entries, where the loop does nothing.
- `HideEngine.HideState.UpdatePkgUid`: requires the same as `HideSpec.PkgUidSpec`.
- `HideEngine.HideState.AddHideList`: requires the same as `HideSpec.AddListSpec`.
- `HideEngine.HideState.RmHideList`: requires the same as `HideSpec.RmListSpec`.
- `HideEngine.HideState.Launch`: requires the same as `HideSpec.LaunchSpec`.
- `HideEngine.HideState.AutoStart`: requires the same as `HideSpec.AutoStartSpec`.
- `HideEngine.HideState.IsHideTarget`: requires the same as `HideSpec.IsHideTargetSpec`. The add quirk can put a package off the list into a bucket (`HideProperties.StaleOwnBucketIsUndefined`); the state stays defined for isolated callers and after any rescan (`HideProperties.TargetDefinedOnAllocatedState`).
- `HideEngine.HideState.CheckUidMap`: requires the same as `HideSpec.CheckUidMapSpec`.
- `HideEngine.HideState`: the shape invariant `Valid()` is promised as `old(Valid()) ==> Valid()` rather than required, because the source does not ask its callers for it.
- `Matcher.MatchTarget`: requires the caller's bucket to be on the list, for the unchecked lookup at 451.
- `Matcher.AnyListsProcess`: requires the bucket to be on the list, for the same reason.
- `UidIndex.RescanLocates`: assumes every stat of the tree succeeds. A failed stat makes the rescan file the entry under uid 0 while `update_pkg_uid` skips it (`UidIndex.FailedStatDiffersBetweenScans`), so the package is then not located.
- `HideProperties.RmAfterRescanKeepsSound`: assumes every stat succeeds, for the same reason; with a failed stat a removal can leave the package in the uid-0 bucket.
- `HideProperties.RmKeepsSound`: holds only when the tree locates the removed package. A package whose directory disappeared keeps its bucket entry, and the index then names a package that has left the list.
- The order in which the loops of `is_hide_target` walk their sets is not modelled (an element is picked arbitrarily). Where no undefined lookup is involved the loops only return early with true, so the answer does not depend on it. At 450-453 the order does matter, and `HideSpec.TargetCrashes` is conservative there: a bucket holding a package off the list counts as undefined, although the source may meet a listed package that answers true first.
