/** The engine's globals and the functions of utils.cpp that update them in
    place. Each method is proved to leave the state, and return the value,
    that its function in HideSpec prescribes. */
module HideEngine {
  import opened HideStrings
  import opened Validation
  import opened ProcKill
  import opened HideList
  import opened UidIndex
  import opened Matcher
  import opened ListWire
  import opened HideSpec

  class HideState {
    /** `to_app_id`, from a header outside this model. */
    const toAppId: int -> int
    /** The default `max_len` of `is_hide_target`, from a header outside this model. */
    const defaultMaxLen: int

    var hideEnabled: bool
    var pkgToProcs: Option<HideMap>
    var appIdToPkgs: Option<AppIndex>
    var pkgXmlIno: int
    var procfpOpen: bool
    /** Every pid sent SIGKILL so far, in order. */
    var killed: seq<int>

    /** The state as a value. */
    function Snap(): Hide
      reads this
    {
      Hide(hideEnabled, pkgToProcs, appIdToPkgs, pkgXmlIno, procfpOpen, killed)
    }

    ghost predicate Valid()
      reads this
    {
      Inv(Snap())
    }

    constructor(toAppId: int -> int, defaultMaxLen: int)
      ensures Snap() == Initial() && Valid()
      ensures this.toAppId == toAppId && this.defaultMaxLen == defaultMaxLen
    {
      this.toAppId := toAppId;
      this.defaultMaxLen := defaultMaxLen;
      hideEnabled := false;
      pkgToProcs := None;
      appIdToPkgs := None;
      pkgXmlIno := 0;
      procfpOpen := false;
      killed := [];
    }

    /** `update_uid_map` (32-73). */
    method UpdateUidMap(env: Env)
      requires !UidMapCrashes(Snap(), env)
      modifies this
      ensures Snap() == UidMapSpec(old(Snap()), env, toAppId)
    {
      if pkgXmlIno == env.pkgXmlIno {
        return;
      }
      pkgXmlIno := env.pkgXmlIno;
      appIdToPkgs := Some(map[]);
      if env.appData.None? || pkgToProcs.None? {
        // with no list, the precondition leaves only empty user directories
        return;
      }
      var users := env.appData.value;
      var keys := pkgToProcs.value.Keys;
      var u := 0;
      while u < |users|
        invariant 0 <= u <= |users|
        invariant appIdToPkgs == Some(Rescan(Flatten(users[..u]), keys, toAppId))
        invariant hideEnabled == old(hideEnabled) && pkgToProcs == old(pkgToProcs) && pkgXmlIno == env.pkgXmlIno
        invariant procfpOpen == old(procfpOpen) && killed == old(killed)
      {
        ScanUser(users[u], Flatten(users[..u]));
        FlattenSnoc(users[..u], users[u]);
        assert users[..u + 1] == users[..u] + [users[u]];
        u := u + 1;
      }
      assert users[..u] == users;
    }

    /** The inner loop of `update_uid_map` (57-68) over one user directory:
        an app ID already indexed is skipped, a listed package opens its bucket. */
    method ScanUser(user: UserDir, ghost scanned: seq<AppEntry>)
      requires pkgToProcs.Some?
      requires appIdToPkgs == Some(Rescan(scanned, pkgToProcs.value.Keys, toAppId))
      modifies this`appIdToPkgs
      ensures appIdToPkgs == Some(Rescan(scanned + user, pkgToProcs.value.Keys, toAppId))
    {
      ghost var keys := pkgToProcs.value.Keys;
      var j := 0;
      assert scanned + user[..0] == scanned;
      while j < |user|
        invariant 0 <= j <= |user|
        invariant appIdToPkgs == Some(Rescan(scanned + user[..j], keys, toAppId))
      {
        var e := user[j];
        RescanSnoc(scanned + user[..j], e, keys, toAppId);
        assert scanned + user[..j + 1] == (scanned + user[..j]) + [e];
        j := j + 1;
        var appId := toAppId(StatUid(e));
        var idx := appIdToPkgs.value;
        ghost var next := ScanStep(idx, e, keys, toAppId);
        assert Rescan(scanned + user[..j], keys, toAppId) == next;
        if appId in idx {
          continue;
        }
        if e.name in pkgToProcs.value {
          // `app_id_to_pkgs[app_id]` is a fresh, empty bucket here
          appIdToPkgs := Some(idx[appId := {e.name}]);
        }
      }
      assert user[..j] == user;
    }

    /** `update_pkg_uid` (75-100): patch the bucket of the first user that holds `pkg`. */
    method UpdatePkgUid(env: Env, pkg: string, remove: bool)
      requires !PkgUidCrashes(Snap(), env, pkg)
      modifies this
      ensures Snap() == PkgUidSpec(old(Snap()), env, pkg, remove, toAppId)
    {
      if env.appData.None? {
        return;
      }
      var users := env.appData.value;
      var u := 0;
      while u < |users|
        invariant 0 <= u <= |users|
        invariant forall v :: 0 <= v < u ==> Lookup(users[v], pkg).None?
        invariant Snap() == old(Snap())
      {
        var owner := Lookup(users[u], pkg);
        if owner.Some? {
          FirstOwnerIs(users, pkg, u);
          var appId := toAppId(owner.value);
          var idx := appIdToPkgs.value;
          if remove {
            if appId in idx {
              var rest := idx[appId] - {pkg};
              if rest == {} {
                appIdToPkgs := Some(idx - {appId});
              } else {
                appIdToPkgs := Some(idx[appId := rest]);
              }
            }
          } else {
            appIdToPkgs := Some(idx[appId := (if appId in idx then idx[appId] else {}) + {pkg}]);
          }
          break;
        }
        u := u + 1;
      }
    }

    /** `add_hide_set` (183-195). */
    method AddHideSet(env: Env, pkg: string, proc: string) returns (added: bool)
      requires pkgToProcs.Some?
      modifies this
      ensures (Snap(), added) == AddSetSpec(old(Snap()), env, pkg, proc)
    {
      var list := pkgToProcs.value;
      var procs := if pkg in list then list[pkg] else {};
      if proc in procs {
        return false;
      }
      pkgToProcs := Some(list[pkg := procs + {proc}]);
      var victims;
      if pkg == ISOLATED_MAGIC {
        victims := KillProcess(env.procs, proc, true, StrStarts);
      } else {
        victims := KillProcess(env.procs, proc, false, StrEql);
      }
      killed := killed + victims;
      return true;
    }

    /** `init_list` (197-217). */
    method InitList(env: Env) returns (ok: bool)
      modifies this
      ensures (Snap(), ok) == InitSpec(old(Snap()), env, toAppId)
    {
      if pkgToProcs.Some? {
        return true;
      }
      pkgToProcs := Some(map[]);
      var rows := env.dbRows;
      var i := 0;
      while i < |rows|
        invariant 0 <= i <= |rows|
        invariant pkgToProcs.Some?
        invariant Snap() == LoadRows(old(Snap()).(list := Some(map[])), env, rows[..i])
      {
        var (pkg, proc) := rows[i];
        assert rows[..i + 1][..i] == rows[..i];
        var _ := AddHideSet(env, pkg, proc);
        i := i + 1;
      }
      assert rows[..i] == rows;
      if !env.dbLoadOk {
        return false;
      }
      appIdToPkgs := Some(map[]);
      UpdateUidMap(env);
      return true;
    }

    /** `add_hide_list` (219-243). */
    method AddHideList(env: Env, pkg: string, proc: string) returns (status: Status)
      requires !AddCrashes(Snap(), env, pkg, proc, toAppId)
      modifies this
      ensures (Snap(), status) == AddListSpec(old(Snap()), env, pkg, proc, toAppId)
      ensures old(Valid()) ==> Valid()
    {
      var proc' := EffectiveProc(pkg, proc);
      if !Validate(pkg, proc') {
        return HideInvalidPkg;
      }
      var ok := InitList(env);
      if !ok {
        return DaemonError;
      }
      var added := AddHideSet(env, pkg, proc');
      if !added {
        return HideItemExist;
      }
      UpdatePkgUid(env, proc', false);
      return if env.dbWriteOk then DaemonSuccess else DaemonError;
    }

    /** `rm_hide_list` (251-289); the index is patched before the package is erased. */
    method RmHideList(env: Env, pkg: string, proc: string) returns (status: Status)
      requires !RmCrashes(Snap(), env, pkg, proc, toAppId)
      modifies this
      ensures (Snap(), status) == RmListSpec(old(Snap()), env, pkg, proc, toAppId)
      ensures old(Valid()) ==> Valid()
    {
      var ok := InitList(env);
      if !ok {
        return DaemonError;
      }
      var list := pkgToProcs.value;
      var removed := false;
      if pkg in list {
        if proc == "" {
          UpdatePkgUid(env, pkg, true);
          pkgToProcs := Some(list - {pkg});
          removed := true;
        } else if proc in list[pkg] {
          var rest := list[pkg] - {proc};
          pkgToProcs := Some(list[pkg := rest]);
          removed := true;
          if rest == {} {
            UpdatePkgUid(env, pkg, true);
            assert list[pkg := rest] - {pkg} == list - {pkg};
            pkgToProcs := Some(list - {pkg});
          }
        }
      }
      if !removed {
        return HideItemNotExist;
      }
      return if env.dbWriteOk then DaemonSuccess else DaemonError;
    }

    /** `ls_hide_list` (297-318): the words written to the client. */
    method LsHideList(env: Env) returns (words: seq<Word>)
      modifies this
      ensures (Snap(), words) == LsSpec(old(Snap()), env, toAppId)
      ensures old(Valid()) ==> Valid()
    {
      var ok := InitList(env);
      if !ok {
        return [StatusWord(DaemonError)];
      }
      var entries := ListEntries(pkgToProcs.value);
      return [StatusWord(DaemonSuccess)] + Records(entries) + [IntWord(0)];
    }

    /** `launch_magiskhide` (343-389). */
    method Launch(env: Env) returns (status: Status)
      requires !LaunchCrashes(Snap(), env, toAppId)
      modifies this
      ensures (Snap(), status) == LaunchSpec(old(Snap()), env, toAppId)
      ensures old(Valid()) ==> Valid()
    {
      if hideEnabled {
        return DaemonSuccess;
      }
      if !env.nsPresent {
        return HideNoNs;
      }
      if !procfpOpen {
        if !env.procOpenOk {
          return DaemonError;
        }
        procfpOpen := true;
      }
      hideEnabled := true;
      ghost var enabling := Snap();
      assert enabling == old(Snap()).(procfp := true, enabled := true);
      var ok := InitList(env);
      ghost var t := Snap();
      assert (t, ok) == InitSpec(enabling, env, toAppId);
      if !ok {
        hideEnabled := false;
        return DaemonError;
      }
      if env.sdkInt >= 29 {
        var usap32 := KillProcess(env.procs, "usap32", true, StrEql);
        var usap64 := KillProcess(env.procs, "usap64", true, StrEql);
        var zygotes := KillProcess(env.procs, "_zygote", true, StrEndsSafe);
        assert usap32 + usap64 + zygotes == LaunchKills(env);
        killed := killed + (usap32 + usap64 + zygotes);
      }
      assert Snap() == if env.sdkInt >= 29 then t.(killed := t.killed + LaunchKills(env)) else t;
      if !env.threadStartOk {
        return DaemonError;
      }
      UpdateUidMap(env);
      return DaemonSuccess;
    }

    /** `stop_magiskhide` (391-406). */
    method Stop() returns (status: Status)
      modifies this
      ensures (Snap(), status) == StopSpec(old(Snap()))
      ensures old(Valid()) ==> Valid()
    {
      if hideEnabled {
        pkgToProcs := None;
        appIdToPkgs := None;
      }
      hideEnabled := false;
      return DaemonSuccess;
    }

    /** `auto_start_magiskhide` (408-418). */
    method AutoStart(env: Env)
      requires env.hideConfig ==> !LaunchCrashes(Snap(), env, toAppId)
      modifies this
      ensures Snap() == AutoStartSpec(old(Snap()), env, toAppId)
      ensures old(Valid()) ==> Valid()
    {
      if hideEnabled {
        return;
      }
      if env.hideConfig {
        var _ := Launch(env);
      }
    }

    /** `is_hide_target` (420-462). */
    method IsHideTarget(env: Env, uid: int, process: string, maxLen: int) returns (hit: bool)
      requires !TargetCrashes(Snap(), env, uid, process, maxLen, toAppId)
      modifies this
      ensures (Snap(), hit) == IsHideTargetSpec(old(Snap()), env, uid, process, maxLen, toAppId)
      ensures old(Valid()) ==> Valid()
    {
      var ok := InitList(env);
      if !ok {
        return false;
      }
      UpdateUidMap(env);
      if appIdToPkgs.None? {
        // only an isolated caller that a sentinel process matches gets this far
        hit := AnyIsolatedHit(IsolatedTargets(pkgToProcs.value), process, maxLen);
        return;
      }
      hit := MatchTarget(pkgToProcs.value, appIdToPkgs.value, toAppId(uid), process, maxLen);
    }

    /** `check_uid_map` (470-476). */
    method CheckUidMap(env: Env, uid: int, process: string) returns (r: int)
      requires hideEnabled ==> !TargetCrashes(Snap(), env, uid, process, defaultMaxLen, toAppId)
      modifies this
      ensures (Snap(), r) == CheckUidMapSpec(old(Snap()), env, uid, process, defaultMaxLen, toAppId)
      ensures old(Valid()) ==> Valid()
    {
      if !hideEnabled {
        return 0;
      }
      var hit := IsHideTarget(env, uid, process, defaultMaxLen);
      return if hit then 1 else 0;
    }
  }
}
