/** Properties of the hide engine across operations: what add and remove do
    to the list, the listing, when the index stays consistent with the list,
    and the enable/disable life cycle. */
module HideProperties {
  import opened HideStrings
  import opened Validation
  import opened ProcKill
  import opened HideList
  import opened UidIndex
  import opened Matcher
  import opened ListWire
  import opened HideSpec

  /** The list and the index are both allocated. */
  predicate Ready(s: Hide) {
    s.list.Some? && s.index.Some?
  }

  // ---------------------------------------------------------------------- add

  /** A pair already on the list reports HIDE_ITEM_EXIST and changes nothing
      beyond initialisation; on an initialised list it changes nothing at all.
      This holds after a failed load as well. */
  lemma AddDuplicateChangesNothing(s: Hide, env: Env, pkg: string, proc: string, toAppId: int -> int, t: Hide)
    requires Validate(pkg, EffectiveProc(pkg, proc)) && InitSpec(s, env, toAppId) == (t, true)
    requires Listed(t.list.value, pkg, EffectiveProc(pkg, proc))
    ensures !AddCrashes(s, env, pkg, proc, toAppId)
    ensures AddListSpec(s, env, pkg, proc, toAppId) == (t, HideItemExist)
    ensures s.list.Some? ==> AddListSpec(s, env, pkg, proc, toAppId) == (s, HideItemExist)
  {
  }

  /** A new valid pair joins the list, and no other pair does; the other
      packages keep their sets; its processes are killed; the index is patched
      for the process name; the status is that of the database write. */
  lemma AddNewPair(s: Hide, env: Env, pkg: string, proc: string, toAppId: int -> int, t: Hide, r: Hide, st: Status)
    requires !AddCrashes(s, env, pkg, proc, toAppId) && Validate(pkg, EffectiveProc(pkg, proc))
    requires InitSpec(s, env, toAppId) == (t, true)
    requires !Listed(t.list.value, pkg, EffectiveProc(pkg, proc))
    requires (r, st) == AddListSpec(s, env, pkg, proc, toAppId)
    ensures st == (if env.dbWriteOk then DaemonSuccess else DaemonError)
    ensures r.list.Some? && (!LoadFailed(s) ==> r.index.Some?)
    ensures forall p, q :: Listed(r.list.value, p, q) <==> Listed(t.list.value, p, q) || (p == pkg && q == EffectiveProc(pkg, proc))
    ensures forall p :: p in t.list.value && p != pkg ==> p in r.list.value && r.list.value[p] == t.list.value[p]
    ensures r.killed == t.killed + AddKills(env, pkg, EffectiveProc(pkg, proc))
    ensures r.index == if t.index.None? then None
      else Some(PkgUid(t.index.value, env.appData, EffectiveProc(pkg, proc), false, toAppId))
  {
    var proc' := EffectiveProc(pkg, proc);
    var l := AddSet(t.list.value, pkg, proc').0;
    assert AddSetSpec(t, env, pkg, proc').0.list.value == l;
  }

  /** An invalid pair reports HIDE_INVALID_PKG and leaves everything as it was,
      before any initialisation. */
  lemma AddInvalidChangesNothing(s: Hide, env: Env, pkg: string, proc: string, toAppId: int -> int)
    requires !Validate(pkg, EffectiveProc(pkg, proc))
    ensures !AddCrashes(s, env, pkg, proc, toAppId)
    ensures AddListSpec(s, env, pkg, proc, toAppId) == (s, HideInvalidPkg)
  {
  }

  /** Adding keeps every indexed package on the list, as long as the index is
      patched for the package itself: the process is the package (the default)
      or no user directory holds an entry named like the process. */
  lemma AddKeepsSound(s: Hide, env: Env, pkg: string, proc: string, toAppId: int -> int)
    requires !AddCrashes(s, env, pkg, proc, toAppId) && Inv(s) && Sound(s)
    requires EffectiveProc(pkg, proc) == pkg || env.appData.None? ||
      FirstOwner(env.appData.value, EffectiveProc(pkg, proc)).None?
    ensures Sound(AddListSpec(s, env, pkg, proc, toAppId).0)
  {
    var proc' := EffectiveProc(pkg, proc);
    if Validate(pkg, proc') {
      var (t, ok) := InitSpec(s, env, toAppId);
      if ok {
        var (u, added) := AddSetSpec(t, env, pkg, proc');
        if added && u.index.Some? {
          var keys := u.list.value.Keys;
          assert IndexInList(u.index.value, keys);
          var idx := PkgUid(u.index.value, env.appData, proc', false, toAppId);
          assert IndexInList(idx, keys);
        }
      }
    }
  }

  lemma ValidPair()
    ensures Validate("com.a", "com.b")
  {
    assert ScanPkg("com.a", false) by { assert "com.a"[3] == '.'; }
    assert ScanProc("com.b");
  }

  /** The index is patched with the process name rather than the package:
      after `add("com.a", "com.b")` on a tree where user 0 holds an entry
      "com.b", the index holds "com.b", which is not on the list. */
  lemma AddIndexesProcessName()
    ensures var s := Hide(true, Some(map[]), Some(map[]), 7, true, []);
      var env := Env(7, Some([[AppEntry("com.b", Some(10050))]]), [], [], true, true, true, true, true, 30, true);
      var r := AddListSpec(s, env, "com.a", "com.b", x => x).0;
      r.list == Some(map["com.a" := {"com.b"}]) && r.index == Some(map[10050 := {"com.b"}]) && !Sound(r)
  {
    var s := Hide(true, Some(map[]), Some(map[]), 7, true, []);
    var env := Env(7, Some([[AppEntry("com.b", Some(10050))]]), [], [], true, true, true, true, true, 30, true);
    var f: int -> int := x => x;
    ValidPair();
    assert InitSpec(s, env, f) == (s, true);
    var u := AddSetSpec(s, env, "com.a", "com.b");
    assert u.1;
    assert AddKills(env, "com.a", "com.b") == [];
    var empty: HideMap := map[];
    var added := AddSet(empty, "com.a", "com.b").0;
    assert added.Keys == {"com.a"} && added["com.a"] == {"com.b"};
    assert added == map["com.a" := {"com.b"}];
    assert u.0 == s.(list := Some(map["com.a" := {"com.b"}]));
    var users := [[AppEntry("com.b", Some(10050))]];
    assert Lookup(users[0], "com.b") == Some(10050);
    assert FirstOwner(users, "com.b") == Some(10050);
    assert PkgUid(map[], env.appData, "com.b", false, f) == map[10050 := {"com.b"}];
    var r := AddListSpec(s, env, "com.a", "com.b", f).0;
    assert r == u.0.(index := Some(map[10050 := {"com.b"}]));
    assert "com.b" !in r.list.value;
  }

  // ------------------------------------------------------------------- remove

  /** Removal after a good initialisation `t` (which is `s` itself when the
      list was allocated, even by a failed load): an unknown package or
      process reports HIDE_ITEM_NOT_EXIST and changes nothing; otherwise the
      list loses the package or the one pair as `RemoveEntry` says, the index
      is patched exactly when the package leaves the list, and the status is
      that of the database write. */
  lemma RmUpdatesList(s: Hide, env: Env, pkg: string, proc: string, toAppId: int -> int, t: Hide, r: Hide, st: Status)
    requires InitSpec(s, env, toAppId) == (t, true) && !RmCrashes(s, env, pkg, proc, toAppId)
    requires (r, st) == RmListSpec(s, env, pkg, proc, toAppId)
    ensures !RemoveEntry(t.list.value, pkg, proc).1 ==> r == t && st == HideItemNotExist
    ensures RemoveEntry(t.list.value, pkg, proc).1 ==>
      r.list == Some(RemoveEntry(t.list.value, pkg, proc).0) &&
      st == (if env.dbWriteOk then DaemonSuccess else DaemonError)
    ensures RemoveEntry(t.list.value, pkg, proc).1 && pkg !in r.list.value ==>
      r.index == if t.index.None? then None else Some(PkgUid(t.index.value, env.appData, pkg, true, toAppId))
    ensures pkg in r.list.value ==> r.index == t.index
    ensures r.enabled == t.enabled && r.ino == t.ino && r.killed == t.killed
  {
  }

  /** Removal keeps every indexed package on the list when the app-data tree
      finds the package under every app ID whose bucket holds it. */
  lemma RmKeepsSound(s: Hide, env: Env, pkg: string, proc: string, toAppId: int -> int)
    requires Ready(s) && Inv(s) && Sound(s)
    requires Locates(s.index.value, env.appData, pkg, toAppId)
    ensures Sound(RmListSpec(s, env, pkg, proc, toAppId).0)
  {
    var (l, removed) := RemoveEntry(s.list.value, pkg, proc);
    if removed && pkg !in l {
      var idx := PkgUid(s.index.value, env.appData, pkg, true, toAppId);
      RemovalClearsPackage(s.index.value, env.appData, pkg, toAppId);
      assert IndexInList(idx, s.list.value.Keys);
      forall a | a in idx ensures idx[a] <= l.Keys {
        forall p | p in idx[a] ensures p in l.Keys {
          assert p != pkg && p in s.list.value;
        }
      }
    }
  }

  /** After a rescan over a tree whose users agree on app IDs, removing any
      package keeps the index consistent with the list. */
  lemma RmAfterRescanKeepsSound(s: Hide, env: Env, pkg: string, proc: string, toAppId: int -> int)
    requires Ready(s) && Inv(s) && env.appData.Some? && AppIdsAgree(env.appData.value, toAppId)
    requires StatsOk(env.appData.value)
    requires s.index.value == Rescan(Flatten(env.appData.value), s.list.value.Keys, toAppId)
    ensures Sound(RmListSpec(s, env, pkg, proc, toAppId).0)
  {
    RescanLocates(env.appData.value, s.list.value.Keys, toAppId, pkg);
    RmKeepsSound(s, env, pkg, proc, toAppId);
  }

  // ------------------------------------------------------------------- listing

  /** A successful listing reads back as exactly the pairs of the list, in map
      order, when no package holds a '|'. */
  lemma LsReadsBack(s: Hide, env: Env, toAppId: int -> int, t: Hide, ws: seq<Word>)
    requires (t, ws) == LsSpec(s, env, toAppId) && InitSpec(s, env, toAppId).1
    requires forall p :: p in t.list.value ==> '|' !in p
    ensures ws[0] == StatusWord(DaemonSuccess)
    ensures ParseRecords(ws[1..]) == Some(MapOrder(t.list.value))
    ensures forall e :: e in MapOrder(t.list.value) <==> Listed(t.list.value, e.0, e.1)
  {
    ListingReadsBack(t.list.value);
  }

  /** Once `add` reported success, the next listing shows the pair. */
  lemma AddedPairIsListed(s: Hide, env: Env, env': Env, pkg: string, proc: string, toAppId: int -> int)
    requires !AddCrashes(s, env, pkg, proc, toAppId) && AddListSpec(s, env, pkg, proc, toAppId).1 == DaemonSuccess
    ensures (pkg, EffectiveProc(pkg, proc)) in MapOrder(LsSpec(AddListSpec(s, env, pkg, proc, toAppId).0, env', toAppId).0.list.value)
  {
    var r := AddListSpec(s, env, pkg, proc, toAppId).0;
    var (t, ok) := InitSpec(s, env, toAppId);
    assert AddSetSpec(t, env, pkg, EffectiveProc(pkg, proc)).0.list.Some?;
    assert Listed(r.list.value, pkg, EffectiveProc(pkg, proc));
    MapOrderMembers(r.list.value);
  }

  // --------------------------------------------------------------- life cycle

  /** `init_list` is idempotent: once it ran, it does nothing and succeeds. */
  lemma InitIsIdempotent(s: Hide, env: Env, env': Env, toAppId: int -> int)
    ensures InitSpec(InitSpec(s, env, toAppId).0, env', toAppId) == (InitSpec(s, env, toAppId).0, true)
  {
  }

  /** A failed database load reports failure, yet leaves the (partial) list
      allocated without an index, so every later `init_list` succeeds at once. */
  lemma FailedLoadKeepsList(s: Hide, env: Env, env': Env, toAppId: int -> int)
    requires s.list.None? && s.index.None? && !env.dbLoadOk
    ensures !InitSpec(s, env, toAppId).1 && LoadFailed(InitSpec(s, env, toAppId).0)
    ensures forall p, q :: Listed(InitSpec(s, env, toAppId).0.list.value, p, q) <==> RowListed(env.dbRows, p, q)
    ensures InitSpec(InitSpec(s, env, toAppId).0, env', toAppId) == (InitSpec(s, env, toAppId).0, true)
  {
  }

  /** Launch without a mount namespace reports HIDE_NO_NS and stays disabled. */
  lemma LaunchWithoutNamespace(s: Hide, env: Env, toAppId: int -> int)
    requires !s.enabled && !env.nsPresent
    ensures !LaunchCrashes(s, env, toAppId)
    ensures LaunchSpec(s, env, toAppId) == (s, HideNoNs) && !LaunchSpec(s, env, toAppId).0.enabled
  {
  }

  /** A failed `init_list` during launch lowers the flag again and reports
      DAEMON_ERROR; a first load leaves the list allocated behind. */
  lemma LaunchInitFailure(s: Hide, env: Env, toAppId: int -> int)
    requires !s.enabled && s.list.None? && s.index.None?
    requires env.nsPresent && (s.procfp || env.procOpenOk) && !env.dbLoadOk
    ensures LaunchSpec(s, env, toAppId).1 == DaemonError
    ensures !LaunchSpec(s, env, toAppId).0.enabled && LaunchSpec(s, env, toAppId).0.procfp
    ensures LoadFailed(LaunchSpec(s, env, toAppId).0)
  {
  }

  /** A monitor thread that does not start makes launch report DAEMON_ERROR
      with hiding left ENABLED and the index not refreshed. */
  lemma LaunchThreadFailure(s: Hide, env: Env, toAppId: int -> int, t: Hide)
    requires !s.enabled && env.nsPresent && (s.procfp || env.procOpenOk)
    requires InitSpec(s.(procfp := true, enabled := true), env, toAppId) == (t, true)
    requires !env.threadStartOk
    ensures !LaunchCrashes(s, env, toAppId)
    ensures LaunchSpec(s, env, toAppId).1 == DaemonError
    ensures LaunchSpec(s, env, toAppId).0.enabled
    ensures LaunchSpec(s, env, toAppId).0.index == t.index && LaunchSpec(s, env, toAppId).0.ino == t.ino
  {
  }

  /** A successful launch enables hiding, keeps /proc open, and on Android 10
      and later kills the USAP pools and app zygotes. */
  lemma LaunchSuccess(s: Hide, env: Env, toAppId: int -> int, t: Hide)
    requires !LaunchCrashes(s, env, toAppId) && !s.enabled && env.nsPresent && (s.procfp || env.procOpenOk)
    requires InitSpec(s.(procfp := true, enabled := true), env, toAppId) == (t, true)
    requires env.threadStartOk
    ensures LaunchSpec(s, env, toAppId).1 == DaemonSuccess
    ensures LaunchSpec(s, env, toAppId).0.enabled && LaunchSpec(s, env, toAppId).0.procfp
    ensures LaunchSpec(s, env, toAppId).0.killed == t.killed + (if env.sdkInt >= 29 then LaunchKills(env) else [])
    ensures LaunchSpec(s, env, toAppId).0.ino == env.pkgXmlIno
  {
  }

  /** The kills of launch never hit the WebView zygote. */
  lemma LaunchSparesWebviewZygote(env: Env, k: nat)
    requires forall i, j :: 0 <= i < j < |env.procs| ==> env.procs[i].pid != env.procs[j].pid
    requires k < |env.procs| && env.procs[k].cmdline == Some("webview_zygote")
    ensures env.procs[k].pid !in LaunchKills(env)
  {
    var procs := env.procs;
    ZygoteFilterSparesWebview(procs, true, k);
    MatchingPidsMembers(procs, "usap32", StrEql);
    MatchingPidsMembers(procs, "usap64", StrEql);
  }

  /** `stop` keeps the cached inode. Re-enabling with packages.xml unchanged
      therefore skips the rescan: the fresh index stays empty, and no ordinary
      app is a target until packages.xml changes, whatever the list holds. */
  lemma RelaunchKeepsEmptyIndex(s: Hide, env: Env, toAppId: int -> int, uid: int, process: string, maxLen: int)
    requires s.enabled && Ready(s) && s.procfp
    requires env.pkgXmlIno == s.ino && env.nsPresent && env.dbLoadOk && env.threadStartOk
    requires toAppId(uid) < FIRST_ISOLATED_APP_ID
    ensures LaunchSpec(StopSpec(s).0, env, toAppId).1 == DaemonSuccess
    ensures LaunchSpec(StopSpec(s).0, env, toAppId).0.index == Some(map[])
    ensures forall p, q :: Listed(LaunchSpec(StopSpec(s).0, env, toAppId).0.list.value, p, q) <==> RowListed(env.dbRows, p, q)
    ensures !IsHideTargetSpec(LaunchSpec(StopSpec(s).0, env, toAppId).0, env, uid, process, maxLen, toAppId).1
  {
    var stopped := StopSpec(s).0;
    var enabling := stopped.(procfp := true, enabled := true);
    var loaded := LoadRows(enabling.(list := Some(map[])), env, env.dbRows);
    assert loaded.ino == s.ino;
    assert InitSpec(enabling, env, toAppId).0.index == Some(map[]);
  }

  /** Stopping twice is stopping once. */
  lemma StopIsIdempotent(s: Hide)
    ensures StopSpec(StopSpec(s).0) == StopSpec(s)
  {
  }

  // ---------------------------------------------------------------- rescan

  /** A changed inode rebuilds the index from scratch: an app ID has a bucket
      exactly when some listed package met in the tree has it, and the bucket
      holds the first such package in user/package order, alone. */
  lemma UidMapRebuildsIndex(s: Hide, env: Env, toAppId: int -> int, r: Hide)
    requires Ready(s) && env.pkgXmlIno != s.ino && env.appData.Some?
    requires r == UidMapSpec(s, env, toAppId)
    ensures forall a :: a in r.index.value ==> exists i :: (0 <= i < |Flatten(env.appData.value)| &&
      FirstClaim(Flatten(env.appData.value), i, s.list.value.Keys, toAppId) && toAppId(StatUid(Flatten(env.appData.value)[i])) == a)
    ensures forall i :: 0 <= i < |Flatten(env.appData.value)| && Flatten(env.appData.value)[i].name in s.list.value ==>
      toAppId(StatUid(Flatten(env.appData.value)[i])) in r.index.value
    ensures forall i :: 0 <= i < |Flatten(env.appData.value)| && FirstClaim(Flatten(env.appData.value), i, s.list.value.Keys, toAppId) ==>
      r.index.value[toAppId(StatUid(Flatten(env.appData.value)[i]))] == {Flatten(env.appData.value)[i].name}
  {
    assert r.index == Some(Rescan(Flatten(env.appData.value), s.list.value.Keys, toAppId));
    RescanSpec(Flatten(env.appData.value), s.list.value.Keys, toAppId);
  }

  /** An unchanged inode leaves the index as it was, however stale. */
  lemma UidMapSkipsUnchangedInode(s: Hide, env: Env, toAppId: int -> int)
    requires env.pkgXmlIno == s.ino
    ensures UidMapSpec(s, env, toAppId) == s
  {
  }

  // ------------------------------------------------------------------ matching

  /** After a rescan, a process listed under the first listed package met with
      a user's app ID is a hide target for that app, when the app ID is an
      ordinary one. */
  lemma RescannedAppIsTarget(s: Hide, env: Env, toAppId: int -> int, i: nat, process: string, maxLen: int)
    requires Ready(s) && env.pkgXmlIno != s.ino && env.appData.Some?
    requires i < |Flatten(env.appData.value)|
    requires FirstClaim(Flatten(env.appData.value), i, s.list.value.Keys, toAppId)
    requires Listed(s.list.value, Flatten(env.appData.value)[i].name, process)
    requires toAppId(StatUid(Flatten(env.appData.value)[i])) < FIRST_ISOLATED_APP_ID
    ensures IsHideTargetSpec(s, env, StatUid(Flatten(env.appData.value)[i]), process, maxLen, toAppId).1
  {
    var es := Flatten(env.appData.value);
    RescanFirst(es, s.list.value.Keys, toAppId);
    var idx := Rescan(es, s.list.value.Keys, toAppId);
    var a := toAppId(StatUid(es[i]));
    assert es[i].name in idx[a];
    ListedProcessIsTarget(s.list.value, idx, a, es[i].name, process, maxLen);
  }

  /** After a failed load, with packages.xml unchanged, an isolated caller
      whose name begins with a sentinel process is still answered: the
      sentinel loop returns before the missing index is read. */
  lemma FailedLoadAnswersIsolatedCaller(toAppId: int -> int, uid: int, maxLen: int)
    requires toAppId(uid) >= FIRST_ISOLATED_APP_ID
    ensures var s := Hide(true, Some(map[ISOLATED_MAGIC := {"com.x"}]), None, 5, true, []);
      var env := Env(5, None, [], [], true, true, true, true, true, 30, true);
      LoadFailed(s) && !TargetCrashes(s, env, uid, "com.x:remote", maxLen, toAppId) &&
      IsHideTargetSpec(s, env, uid, "com.x:remote", maxLen, toAppId).1
  {
    var list: HideMap := map[ISOLATED_MAGIC := {"com.x"}];
    assert "com.x:remote"[..5] == "com.x";
    assert "com.x" in IsolatedTargets(list) && IsolatedHit("com.x", "com.x:remote", maxLen);
  }

  /** On an allocated state, however stale its index, `is_hide_target` is
      defined for every isolated caller, and for every caller once
      packages.xml has changed: the rescan leaves only listed packages in
      the buckets. */
  lemma TargetDefinedOnAllocatedState(s: Hide, env: Env, uid: int, process: string, maxLen: int, toAppId: int -> int)
    requires Ready(s)
    requires toAppId(uid) >= FIRST_ISOLATED_APP_ID || env.pkgXmlIno != s.ino
    ensures !TargetCrashes(s, env, uid, process, maxLen, toAppId)
  {
    if env.pkgXmlIno != s.ino {
      var u := UidMapSpec(s, env, toAppId);
      forall a | a in u.index.value ensures u.index.value[a] <= s.list.value.Keys {
        var p :| p in s.list.value && u.index.value[a] == {p};
      }
    }
  }

  /** The state `AddIndexesProcessName` reaches, queried for the app ID of
      "com.b" with packages.xml unchanged: the bucket names "com.b", which is
      not on the list, so the lookup at 451 is undefined there. */
  lemma StaleOwnBucketIsUndefined(process: string, maxLen: int)
    ensures TargetCrashes(Hide(true, Some(map["com.a" := {"com.b"}]), Some(map[10050 := {"com.b"}]), 7, true, []),
      Env(7, None, [], [], true, true, true, true, true, 30, true), 10050, process, maxLen, x => x)
  {
    var list: HideMap := map["com.a" := {"com.b"}];
    assert "com.b" !in list.Keys;
  }
}
