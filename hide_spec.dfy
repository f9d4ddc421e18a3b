/** The daemon's hide state and the meaning of each operation on it, as
    functions of the old state and the environment. The environment stands for
    everything the source reads from the system: the inode of packages.xml,
    the app-data tree, the process table, the database and the outcome of the
    system calls that can fail. */
module HideSpec {
  import opened HideStrings
  import opened Validation
  import opened ProcKill
  import opened HideList
  import opened UidIndex
  import opened Matcher
  import opened ListWire

  /** What one call sees of the system. */
  datatype Env = Env(
    pkgXmlIno: int,                   // st_ino of packages.xml (0 when stat fails)
    appData: Option<seq<UserDir>>,    // the app-data tree; None when it cannot be opened
    procs: seq<ProcEntry>,            // the /proc table
    dbRows: seq<(string, string)>,    // rows the hidelist query delivers
    dbLoadOk: bool,                   // the query reports no error
    dbWriteOk: bool,                  // the INSERT or DELETE reports no error
    nsPresent: bool,                  // /proc/self/ns/mnt exists
    procOpenOk: bool,                 // opendir("/proc") succeeds
    threadStartOk: bool,              // the monitor thread starts
    sdkInt: int,                      // SDK_INT
    hideConfig: bool)                 // the persisted HIDE_CONFIG setting

  /** The globals of the engine. `list` and `index` are None while their
      `unique_ptr` is empty; `killed` logs every SIGKILL in order. */
  datatype Hide = Hide(
    enabled: bool,
    list: Option<HideMap>,
    index: Option<AppIndex>,
    ino: int,
    procfp: bool,
    killed: seq<int>)

  /** The state at daemon start. */
  function Initial(): (s: Hide)
    ensures !s.enabled && s.list.None? && s.index.None? && !s.procfp && s.killed == []
    ensures Inv(s) && Sound(s) && !LoadFailed(s)
  {
    Hide(false, None, None, 0, false, [])
  }

  /** Shape facts every operation keeps: the index exists only beside the
      list, no package has an empty set, no bucket is empty. */
  predicate Inv(s: Hide) {
    (s.index.Some? ==> s.list.Some?) &&
    (s.list.Some? ==> NoEmptySets(s.list.value)) &&
    (s.index.Some? ==> NoEmptyBuckets(s.index.value))
  }

  /** Every indexed package is on the hide list, so the lookup at 451 finds it. */
  predicate Sound(s: Hide) {
    s.index.Some? ==> s.list.Some? && IndexInList(s.index.value, s.list.value.Keys)
  }

  /** The list was allocated, but the database load failed before the index
      was. Each operation below is undefined exactly on the paths that then
      dereference the missing index; the predicates named `...Crashes` say
      which paths those are. */
  predicate LoadFailed(s: Hide) {
    s.list.Some? && s.index.None?
  }

  /** The row (pkg, proc) is among `rows`. */
  predicate RowListed(rows: seq<(string, string)>, pkg: string, proc: string) {
    exists i :: 0 <= i < |rows| && rows[i] == (pkg, proc)
  }

  // ------------------------------------------------------------ update_uid_map

  /** `update_uid_map` dereferences a missing map: the inode changed while no
      index is allocated (45), or while no list is allocated and the rescan
      meets an entry, which it looks up in the list (64). */
  predicate UidMapCrashes(s: Hide, env: Env) {
    env.pkgXmlIno != s.ino &&
    (s.index.None? || (s.list.None? && env.appData.Some? && Flatten(env.appData.value) != []))
  }

  /** `update_uid_map` (32-73): nothing happens when the inode is unchanged;
      otherwise the inode is cached first, the index cleared, and rebuilt from
      the app-data tree if it can be opened. */
  function UidMapSpec(s: Hide, env: Env, toAppId: int -> int): (r: Hide)
    requires !UidMapCrashes(s, env)
    ensures r.ino == env.pkgXmlIno && (r.index.Some? <==> s.index.Some?)
    ensures r.enabled == s.enabled && r.list == s.list && r.procfp == s.procfp && r.killed == s.killed
    ensures env.pkgXmlIno == s.ino ==> r.index == s.index
    ensures env.pkgXmlIno != s.ino && (env.appData.None? || s.list.None?) ==> r.index == Some(map[])
    ensures env.pkgXmlIno != s.ino && s.list.Some? ==> (r.index.Some? &&
      forall a :: a in r.index.value ==> exists p :: p in s.list.value && r.index.value[a] == {p})
    ensures Inv(s) ==> Inv(r)
    ensures Sound(s) ==> Sound(r)
  {
    if env.pkgXmlIno == s.ino then s
    else
      // with no list, the precondition leaves no entry to look up
      var idx := if env.appData.None? || s.list.None? then map[]
        else Rescan(Flatten(env.appData.value), s.list.value.Keys, toAppId);
      s.(ino := env.pkgXmlIno, index := Some(idx))
  }

  // ------------------------------------------------------------ update_pkg_uid

  /** `update_pkg_uid` dereferences the missing index once its user loop has
      found an owner (88, 95). */
  predicate PkgUidCrashes(s: Hide, env: Env, pkg: string) {
    s.index.None? && PatchReaches(env.appData, pkg)
  }

  /** `update_pkg_uid` (75-100) on the whole state: only the index changes,
      and only when some user holds `pkg`. */
  function PkgUidSpec(s: Hide, env: Env, pkg: string, remove: bool, toAppId: int -> int): (r: Hide)
    requires !PkgUidCrashes(s, env, pkg)
    ensures r.(index := s.index) == s
    ensures !PatchReaches(env.appData, pkg) ==> r == s
    ensures s.index.Some? ==> r.index == Some(PkgUid(s.index.value, env.appData, pkg, remove, toAppId))
    ensures Inv(s) ==> Inv(r)
  {
    if s.index.None? then s
    else s.(index := Some(PkgUid(s.index.value, env.appData, pkg, remove, toAppId)))
  }

  // -------------------------------------------------------------- add_hide_set

  /** The processes `add_hide_set` kills for a new pair (188-193): every process
      whose cmdline starts with an isolated entry, or the first one whose
      cmdline equals an ordinary entry. */
  function AddKills(env: Env, pkg: string, proc: string): (v: seq<int>)
    ensures pkg == ISOLATED_MAGIC ==> v == Victims(env.procs, proc, true, StrStarts)
    ensures pkg != ISOLATED_MAGIC ==> v == Victims(env.procs, proc, false, StrEql) && |v| <= 1
  {
    SingleKillIsFirstHit(env.procs, proc, StrEql);
    if pkg == ISOLATED_MAGIC then Victims(env.procs, proc, true, StrStarts)
    else Victims(env.procs, proc, false, StrEql)
  }

  /** `add_hide_set` (183-195): a new pair is added and its processes killed;
      a known pair changes nothing. The flag says whether the pair was new. */
  function AddSetSpec(s: Hide, env: Env, pkg: string, proc: string): (r: (Hide, bool))
    requires s.list.Some?
    ensures r.1 <==> !Listed(s.list.value, pkg, proc)
    ensures !r.1 ==> r.0 == s
    ensures r.0.enabled == s.enabled && r.0.index == s.index && r.0.ino == s.ino && r.0.procfp == s.procfp
    ensures r.0.list.Some? && Listed(r.0.list.value, pkg, proc)
    ensures forall p, q :: Listed(r.0.list.value, p, q) <==> Listed(s.list.value, p, q) || (p == pkg && q == proc)
    ensures r.0.list.value.Keys == s.list.value.Keys + {pkg}
    ensures r.1 ==> r.0.killed == s.killed + AddKills(env, pkg, proc)
    ensures Inv(s) ==> Inv(r.0)
  {
    var (list, added) := AddSet(s.list.value, pkg, proc);
    if !added then (s, false)
    else (s.(list := Some(list), killed := s.killed + AddKills(env, pkg, proc)), true)
  }

  // ----------------------------------------------------------------- init_list

  /** The database rows fed through `add_hide_set` one after the other (203-206). */
  function LoadRows(s: Hide, env: Env, rows: seq<(string, string)>): (r: Hide)
    requires s.list.Some?
    ensures r.list.Some?
    ensures r.enabled == s.enabled && r.index == s.index && r.ino == s.ino && r.procfp == s.procfp
    ensures forall p, q :: Listed(r.list.value, p, q) <==> Listed(s.list.value, p, q) || RowListed(rows, p, q)
    ensures s.killed <= r.killed
    ensures Inv(s) ==> Inv(r)
    decreases |rows|
  {
    if rows == [] then s
    else
      var init := rows[..|rows| - 1];
      var (pkg, proc) := rows[|rows| - 1];
      var t := LoadRows(s, env, init);
      assert forall p, q :: RowListed(rows, p, q) <==> RowListed(init, p, q) || (p == pkg && q == proc) by {
        forall p, q | RowListed(rows, p, q) && !(p == pkg && q == proc) ensures RowListed(init, p, q) {
          var i :| 0 <= i < |rows| && rows[i] == (p, q);
          assert rows[i] == init[i];
        }
        forall p, q | RowListed(init, p, q) ensures RowListed(rows, p, q) {
          var i :| 0 <= i < |init| && init[i] == (p, q);
          assert rows[i] == init[i];
        }
      }
      AddSetSpec(t, env, pkg, proc).0
  }

  /** `init_list` (197-217): an allocated list makes it a no-op reporting
      success. Otherwise a fresh list is filled from the database; a failed
      load reports failure but leaves the list allocated and the index not;
      a good load allocates the index and runs `update_uid_map`. */
  function InitSpec(s: Hide, env: Env, toAppId: int -> int): (r: (Hide, bool))
    ensures s.list.Some? ==> r == (s, true)
    ensures r.0.list.Some?
    ensures r.1 <==> s.list.Some? || env.dbLoadOk
    ensures s.list.None? ==> forall p, q :: Listed(r.0.list.value, p, q) <==> RowListed(env.dbRows, p, q)
    ensures s.list.None? && !env.dbLoadOk ==> r.0.index == s.index
    ensures r.0.enabled == s.enabled && r.0.procfp == s.procfp && s.killed <= r.0.killed
    ensures !LoadFailed(s) && r.1 ==> r.0.index.Some?
    ensures Inv(s) ==> Inv(r.0)
    ensures Inv(s) && Sound(s) ==> Sound(r.0)
  {
    if s.list.Some? then (s, true)
    else
      var t := LoadRows(s.(list := Some(map[])), env, env.dbRows);
      if !env.dbLoadOk then (t, false)
      else (UidMapSpec(t.(index := Some(map[])), env, toAppId), true)
  }

  // ------------------------------------------------------------- add_hide_list

  /** The process `add_hide_list` works with: an empty one stands for the
      package itself (220-221). */
  function EffectiveProc(pkg: string, proc: string): (p: string)
    ensures proc == "" ==> p == pkg
    ensures proc != "" ==> p == proc
  {
    if proc == "" then pkg else proc
  }

  /** `add_hide_list` reaches `update_pkg_uid` (233) for a new pair while
      no index is allocated, and the patch finds an owner. */
  predicate AddCrashes(s: Hide, env: Env, pkg: string, proc: string, toAppId: int -> int) {
    var p := EffectiveProc(pkg, proc);
    var t := InitSpec(s, env, toAppId);
    Validate(pkg, p) && t.1 && !Listed(t.0.list.value, pkg, p) && PkgUidCrashes(t.0, env, p)
  }

  /** `add_hide_list` (219-243). An empty process stands for the package
      itself. After validation and initialisation the pair is added; a
      duplicate reports HIDE_ITEM_EXIST. A new pair patches the index through
      `update_pkg_uid(*p.first, false)`, where `*p.first` is the PROCESS name
      just inserted, and the status is that of the database INSERT. */
  function AddListSpec(s: Hide, env: Env, pkg: string, proc: string, toAppId: int -> int): (r: (Hide, Status))
    requires !AddCrashes(s, env, pkg, proc, toAppId)
    ensures r.1 == HideInvalidPkg <==> !Validate(pkg, EffectiveProc(pkg, proc))
    ensures r.1 == HideInvalidPkg ==> r.0 == s
    ensures Validate(pkg, EffectiveProc(pkg, proc)) && !InitSpec(s, env, toAppId).1 ==>
      r == (InitSpec(s, env, toAppId).0, DaemonError)
    ensures Validate(pkg, EffectiveProc(pkg, proc)) && InitSpec(s, env, toAppId).1 ==>
      (r.1 == HideItemExist <==> Listed(InitSpec(s, env, toAppId).0.list.value, pkg, EffectiveProc(pkg, proc)))
    ensures r.0.enabled == s.enabled && r.0.procfp == s.procfp
    ensures Inv(s) ==> Inv(r.0)
  {
    var proc' := EffectiveProc(pkg, proc);
    if !Validate(pkg, proc') then (s, HideInvalidPkg)
    else
      var (t, ok) := InitSpec(s, env, toAppId);
      if !ok then (t, DaemonError)
      else
        var (u, added) := AddSetSpec(t, env, pkg, proc');
        if !added then (u, HideItemExist)
        else (PkgUidSpec(u, env, proc', false, toAppId), if env.dbWriteOk then DaemonSuccess else DaemonError)
  }

  // -------------------------------------------------------------- rm_hide_list

  /** `rm_hide_list` reaches `update_pkg_uid` (262, 270) for a package that
      leaves the list while no index is allocated, and the patch finds an owner. */
  predicate RmCrashes(s: Hide, env: Env, pkg: string, proc: string, toAppId: int -> int) {
    var t := InitSpec(s, env, toAppId);
    t.1 && RemoveEntry(t.0.list.value, pkg, proc).1 && pkg !in RemoveEntry(t.0.list.value, pkg, proc).0 &&
    PkgUidCrashes(t.0, env, pkg)
  }

  /** `rm_hide_list` (251-289): the pair (or, for an empty process, the whole
      package) leaves the list; the index forgets the package before it is
      erased from the list, whenever the package goes. Nothing removed reports
      HIDE_ITEM_NOT_EXIST; otherwise the status is that of the DELETE. */
  function RmListSpec(s: Hide, env: Env, pkg: string, proc: string, toAppId: int -> int): (r: (Hide, Status))
    requires !RmCrashes(s, env, pkg, proc, toAppId)
    ensures !InitSpec(s, env, toAppId).1 ==> r == (InitSpec(s, env, toAppId).0, DaemonError)
    ensures InitSpec(s, env, toAppId).1 ==>
      (r.1 == HideItemNotExist <==> !RemoveEntry(InitSpec(s, env, toAppId).0.list.value, pkg, proc).1)
    ensures r.0.enabled == s.enabled && r.0.procfp == s.procfp
    ensures r.0.list.Some?
    ensures Inv(s) ==> Inv(r.0)
  {
    var (t, ok) := InitSpec(s, env, toAppId);
    if !ok then (t, DaemonError)
    else
      var (list, removed) := RemoveEntry(t.list.value, pkg, proc);
      if !removed then (t, HideItemNotExist)
      else
        var u := if pkg in list then t else PkgUidSpec(t, env, pkg, true, toAppId);
        RemoveKeepsNoEmptySets(t.list.value, pkg, proc);
        (u.(list := Some(list)), if env.dbWriteOk then DaemonSuccess else DaemonError)
  }

  // -------------------------------------------------------------- ls_hide_list

  /** `ls_hide_list` (297-318): the status and, after a good initialisation,
      the records of the list in map order and the terminating zero. A failed
      initialisation returns before the terminator. */
  ghost function LsSpec(s: Hide, env: Env, toAppId: int -> int): (r: (Hide, seq<Word>))
    ensures r.0 == InitSpec(s, env, toAppId).0
    ensures |r.1| >= 1 && r.1[0] == StatusWord(if InitSpec(s, env, toAppId).1 then DaemonSuccess else DaemonError)
  {
    var (t, ok) := InitSpec(s, env, toAppId);
    if !ok then (t, [StatusWord(DaemonError)])
    else (t, LsReply(t.list.value))
  }

  // -------------------------------------------------- launch / stop / auto start

  /** The processes launch kills on Android 10 and later (366-371): every USAP
      pool process and every app zygote except the WebView zygote. */
  function LaunchKills(env: Env): (v: seq<int>)
    ensures forall x :: x in v ==> x > 0
  {
    NonPositivePidsNeverKilled(env.procs, "usap32", true, StrEql);
    NonPositivePidsNeverKilled(env.procs, "usap64", true, StrEql);
    NonPositivePidsNeverKilled(env.procs, "_zygote", true, StrEndsSafe);
    Victims(env.procs, "usap32", true, StrEql) + Victims(env.procs, "usap64", true, StrEql) +
      Victims(env.procs, "_zygote", true, StrEndsSafe)
  }

  /** Launch gets as far as `update_uid_map` (384) and that crashes. */
  predicate LaunchCrashes(s: Hide, env: Env, toAppId: int -> int) {
    var t := InitSpec(s.(procfp := true, enabled := true), env, toAppId);
    !s.enabled && env.nsPresent && (s.procfp || env.procOpenOk) && t.1 && env.threadStartOk &&
    UidMapCrashes(t.0, env)
  }

  /** `launch_magiskhide` (343-389), without the property hiding and the monitor
      thread itself. The flag is raised before `init_list`, lowered again if
      it fails, and left raised when the thread does not start. */
  function LaunchSpec(s: Hide, env: Env, toAppId: int -> int): (r: (Hide, Status))
    requires !LaunchCrashes(s, env, toAppId)
    ensures s.enabled ==> r == (s, DaemonSuccess)
    ensures !s.enabled && !env.nsPresent ==> r == (s, HideNoNs)
    ensures r.1 == DaemonSuccess ==> r.0.enabled
    ensures !s.enabled && r.1 == DaemonSuccess ==> r.0.procfp
    ensures Inv(s) ==> Inv(r.0)
    ensures Inv(s) && Sound(s) ==> Sound(r.0)
  {
    if s.enabled then (s, DaemonSuccess)
    else if !env.nsPresent then (s, HideNoNs)
    else if !s.procfp && !env.procOpenOk then (s, DaemonError)
    else
      var (t, ok) := InitSpec(s.(procfp := true, enabled := true), env, toAppId);
      if !ok then (t.(enabled := false), DaemonError)
      else
        var u := if env.sdkInt >= 29 then t.(killed := t.killed + LaunchKills(env)) else t;
        if !env.threadStartOk then (u, DaemonError)
        else (UidMapSpec(u, env, toAppId), DaemonSuccess)
  }

  /** `stop_magiskhide` (391-406): always succeeds and lowers the flag; both
      maps are discarded only if hiding was enabled. The cached inode stays. */
  function StopSpec(s: Hide): (r: (Hide, Status))
    ensures r.1 == DaemonSuccess && !r.0.enabled
    ensures s.enabled ==> r.0.list.None? && r.0.index.None?
    ensures !s.enabled ==> r.0 == s
    ensures r.0.ino == s.ino && r.0.procfp == s.procfp && r.0.killed == s.killed
    ensures Inv(s) ==> Inv(r.0)
    ensures Sound(s) ==> Sound(r.0)
  {
    var t := if s.enabled then s.(list := None, index := None) else s;
    (t.(enabled := false), DaemonSuccess)
  }

  /** `auto_start_magiskhide` (408-418): when enabled only signals are sent;
      otherwise hiding is launched if the persisted setting asks for it. */
  function AutoStartSpec(s: Hide, env: Env, toAppId: int -> int): (r: Hide)
    requires env.hideConfig ==> !LaunchCrashes(s, env, toAppId)
    ensures s.enabled || !env.hideConfig ==> r == s
    ensures Inv(s) ==> Inv(r)
  {
    if s.enabled then s
    else if env.hideConfig then LaunchSpec(s, env, toAppId).0
    else s
  }

  // ------------------------------------------------ is_hide_target / check_uid_map

  /** `is_hide_target` crashes in `update_uid_map` (425); or it reaches a
      lookup in the missing index (437, 447), which only an isolated caller
      that a sentinel process already matches escapes; or the refreshed
      bucket of an ordinary caller names a package off the list, which the
      unchecked lookup at 451 may dereference. */
  predicate TargetCrashes(s: Hide, env: Env, uid: int, process: string, maxLen: int, toAppId: int -> int) {
    var t := InitSpec(s, env, toAppId);
    t.1 && (UidMapCrashes(t.0, env) ||
      (t.0.index.None? && !(toAppId(uid) >= FIRST_ISOLATED_APP_ID && SentinelHit(t.0.list.value, process, maxLen))) ||
      (t.0.index.Some? &&
       var u := UidMapSpec(t.0, env, toAppId);
       StaleBucket(u.list.value, u.index.value, toAppId(uid))))
  }

  /** `is_hide_target` (420-462): initialise, refresh the index, then match. */
  function IsHideTargetSpec(s: Hide, env: Env, uid: int, process: string, maxLen: int, toAppId: int -> int): (r: (Hide, bool))
    requires !TargetCrashes(s, env, uid, process, maxLen, toAppId)
    ensures r.0.enabled == s.enabled && r.0.list.Some?
    ensures !InitSpec(s, env, toAppId).1 ==> !r.1
    ensures InitSpec(s, env, toAppId).1 && r.0.index.Some? ==>
      r.1 == Matches(r.0.list.value, r.0.index.value, toAppId(uid), process, maxLen)
    ensures (InitSpec(s, env, toAppId).1 && toAppId(uid) >= FIRST_ISOLATED_APP_ID &&
      SentinelHit(InitSpec(s, env, toAppId).0.list.value, process, maxLen)) ==> r.1
    ensures Inv(s) ==> Inv(r.0)
    ensures Inv(s) && Sound(s) ==> Sound(r.0)
  {
    var (t, ok) := InitSpec(s, env, toAppId);
    if !ok then (t, false)
    else
      var u := UidMapSpec(t, env, toAppId);
      if u.index.None? then (u, SentinelHit(u.list.value, process, maxLen))
      else (u, Matches(u.list.value, u.index.value, toAppId(uid), process, maxLen))
  }

  /** `check_uid_map` (470-476): 0 while hiding is disabled, else 1 or 0 for the
      answer of `is_hide_target` with the default length limit. */
  function CheckUidMapSpec(s: Hide, env: Env, uid: int, process: string, maxLen: int, toAppId: int -> int): (r: (Hide, int))
    requires s.enabled ==> !TargetCrashes(s, env, uid, process, maxLen, toAppId)
    ensures !s.enabled ==> r == (s, 0)
    ensures r.1 == 0 || r.1 == 1
    ensures Inv(s) ==> Inv(r.0)
    ensures s.enabled ==> (r.1 == 1 <==> IsHideTargetSpec(s, env, uid, process, maxLen, toAppId).1)
  {
    if !s.enabled then (s, 0)
    else
      var (t, hit) := IsHideTargetSpec(s, env, uid, process, maxLen, toAppId);
      (t, if hit then 1 else 0)
  }
}
