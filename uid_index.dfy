/** The app-ID index `app_id_to_pkgs`: app ID -> packages on the hide list.
    The app-data tree is a snapshot, one directory per user, each a sequence of
    (entry name, owner uid). This module holds the pure meaning of the full
    rescan inside `update_uid_map` (45-72) and of `update_pkg_uid` (75-100). */
module UidIndex {
  import opened HideStrings

  /** One entry of a user's app-data directory and the owner uid a stat of it
      reports, None when the stat fails. Both stats of the source agree on it:
      `xfstatat` of the rescan (59) and `fstatat` of `update_pkg_uid` (85). */
  datatype AppEntry = AppEntry(name: string, uid: Option<int>)

  /** The uid the rescan files an entry under: a failed `xfstatat` leaves the
      zero-initialised `struct stat` (58-59), so the owner is uid 0. */
  function StatUid(e: AppEntry): (u: int)
    ensures e.uid.Some? ==> u == e.uid.value
    ensures e.uid.None? ==> u == 0
  {
    if e.uid.Some? then e.uid.value else 0
  }

  type UserDir = seq<AppEntry>

  type AppIndex = map<int, set<string>>

  predicate NoEmptyBuckets(idx: AppIndex) {
    forall a :: a in idx ==> idx[a] != {}
  }

  /** Every indexed package is one of `keys` (the hide list's packages). */
  predicate IndexInList(idx: AppIndex, keys: set<string>) {
    forall a :: a in idx ==> idx[a] <= keys
  }

  /** The entries of all users, in user order and then directory order. */
  function Flatten(users: seq<UserDir>): seq<AppEntry>
    decreases |users|
  {
    if users == [] then [] else users[0] + Flatten(users[1..])
  }

  lemma {:induction false} FlattenAppend(a: seq<UserDir>, b: seq<UserDir>)
    ensures Flatten(a + b) == Flatten(a) + Flatten(b)
    decreases |a|
  {
    if a == [] {
      assert a + b == b;
    } else {
      assert (a + b)[1..] == a[1..] + b;
      FlattenAppend(a[1..], b);
    }
  }

  lemma FlattenSnoc(users: seq<UserDir>, user: UserDir)
    ensures Flatten(users + [user]) == Flatten(users) + user
  {
    FlattenAppend(users, [user]);
    assert Flatten([user]) == user + Flatten([]);
  }

  /** One step of the inner loop (58-67): an app ID already present is skipped;
      otherwise a package on the list opens a new bucket for its app ID. */
  function ScanStep(idx: AppIndex, e: AppEntry, keys: set<string>, toAppId: int -> int): AppIndex {
    var a := toAppId(StatUid(e));
    if a in idx then idx
    else if e.name in keys then idx[a := {e.name}]
    else idx
  }

  /** The index the rescan builds from an emptied map over the entries `es`. */
  function Rescan(es: seq<AppEntry>, keys: set<string>, toAppId: int -> int): (r: AppIndex)
    ensures forall a :: a in r ==> exists p :: p in keys && r[a] == {p}
    decreases |es|
  {
    if es == [] then map[]
    else ScanStep(Rescan(es[..|es| - 1], keys, toAppId), es[|es| - 1], keys, toAppId)
  }

  /** Entry `i` is the first one in scan order that is on the list and has its app ID. */
  predicate FirstClaim(es: seq<AppEntry>, i: int, keys: set<string>, toAppId: int -> int)
    requires 0 <= i < |es|
  {
    es[i].name in keys &&
    forall j :: 0 <= j < i ==> !(toAppId(StatUid(es[j])) == toAppId(StatUid(es[i])) && es[j].name in keys)
  }

  lemma RescanSnoc(es: seq<AppEntry>, e: AppEntry, keys: set<string>, toAppId: int -> int)
    ensures Rescan(es + [e], keys, toAppId) == ScanStep(Rescan(es, keys, toAppId), e, keys, toAppId)
  {
    assert (es + [e])[..|es|] == es;
  }

  /** Every bucket of the rescan belongs to the first listed package met with its app ID. */
  lemma {:induction false} RescanOrigin(es: seq<AppEntry>, keys: set<string>, toAppId: int -> int)
    ensures forall a :: a in Rescan(es, keys, toAppId) ==> exists i :: 0 <= i < |es| && FirstClaim(es, i, keys, toAppId) && toAppId(StatUid(es[i])) == a
    decreases |es|
  {
    if es != [] {
      var init := es[..|es| - 1];
      var e := es[|es| - 1];
      var r' := Rescan(init, keys, toAppId);
      RescanOrigin(init, keys, toAppId);
      forall a | a in Rescan(es, keys, toAppId)
        ensures exists i :: 0 <= i < |es| && FirstClaim(es, i, keys, toAppId) && toAppId(StatUid(es[i])) == a
      {
        if a in r' {
          var i :| 0 <= i < |init| && FirstClaim(init, i, keys, toAppId) && toAppId(StatUid(init[i])) == a;
          assert forall j :: 0 <= j <= i ==> init[j] == es[j];
          assert FirstClaim(es, i, keys, toAppId);
        } else {
          assert a == toAppId(StatUid(e)) && e.name in keys;
          forall j | 0 <= j < |es| - 1 ensures !(toAppId(StatUid(es[j])) == a && es[j].name in keys) {
            assert es[j] == init[j];
            RescanCovers(init, keys, toAppId);
          }
          assert FirstClaim(es, |es| - 1, keys, toAppId);
        }
      }
    }
  }

  /** Every listed package met by the rescan has its app ID indexed. */
  lemma {:induction false} RescanCovers(es: seq<AppEntry>, keys: set<string>, toAppId: int -> int)
    ensures forall i :: 0 <= i < |es| && es[i].name in keys ==> toAppId(StatUid(es[i])) in Rescan(es, keys, toAppId)
    decreases |es|
  {
    if es != [] {
      var init := es[..|es| - 1];
      RescanCovers(init, keys, toAppId);
      assert forall j :: 0 <= j < |init| ==> init[j] == es[j];
    }
  }

  /** The bucket of a first claimant holds exactly that package. */
  lemma {:induction false} RescanFirst(es: seq<AppEntry>, keys: set<string>, toAppId: int -> int)
    ensures forall i :: 0 <= i < |es| && FirstClaim(es, i, keys, toAppId) ==>
      toAppId(StatUid(es[i])) in Rescan(es, keys, toAppId) && Rescan(es, keys, toAppId)[toAppId(StatUid(es[i]))] == {es[i].name}
    decreases |es|
  {
    if es != [] {
      var init := es[..|es| - 1];
      var e := es[|es| - 1];
      var r' := Rescan(init, keys, toAppId);
      RescanFirst(init, keys, toAppId);
      forall i | 0 <= i < |es| && FirstClaim(es, i, keys, toAppId)
        ensures toAppId(StatUid(es[i])) in Rescan(es, keys, toAppId)
        ensures Rescan(es, keys, toAppId)[toAppId(StatUid(es[i]))] == {es[i].name}
      {
        if i < |init| {
          assert forall j :: 0 <= j <= i ==> init[j] == es[j];
          assert FirstClaim(init, i, keys, toAppId);
        } else {
          RescanOrigin(init, keys, toAppId);
          assert forall j :: 0 <= j < |init| ==> es[j] == init[j];
        }
      }
    }
  }

  /** The rescan, described without the loop: an app ID has a bucket exactly when
      some listed package has that app ID, and the bucket holds exactly the
      first such package met in user/package order. */
  lemma RescanSpec(es: seq<AppEntry>, keys: set<string>, toAppId: int -> int)
    ensures forall a :: a in Rescan(es, keys, toAppId) ==> exists i :: 0 <= i < |es| && FirstClaim(es, i, keys, toAppId) && toAppId(StatUid(es[i])) == a
    ensures forall i :: 0 <= i < |es| && es[i].name in keys ==> toAppId(StatUid(es[i])) in Rescan(es, keys, toAppId)
    ensures forall i :: 0 <= i < |es| && FirstClaim(es, i, keys, toAppId) ==>
      Rescan(es, keys, toAppId)[toAppId(StatUid(es[i]))] == {es[i].name}
  {
    RescanOrigin(es, keys, toAppId);
    RescanCovers(es, keys, toAppId);
    RescanFirst(es, keys, toAppId);
  }

  /** `fstatat(user/pkg) == 0` inside one user directory (85): the owner of
      its entry `pkg`, or nothing when there is no such entry or its stat fails. */
  function Lookup(user: UserDir, pkg: string): (r: Option<int>)
    ensures (forall j :: 0 <= j < |user| ==> user[j].name != pkg) ==> r.None?
    ensures (exists j :: 0 <= j < |user| && user[j].name == pkg) ==>
      exists j :: (0 <= j < |user| && user[j].name == pkg && user[j].uid == r &&
        forall k :: 0 <= k < j ==> user[k].name != pkg)
    decreases |user|
  {
    if user == [] then None
    else if user[0].name == pkg then user[0].uid
    else
      var r := Lookup(user[1..], pkg);
      assert forall j :: 1 <= j < |user| ==> user[j] == user[1..][j - 1];
      r
  }

  /** The owner found by the user loop of `update_pkg_uid` (83-98), which stops
      at the first user directory that holds `pkg`. */
  function FirstOwner(users: seq<UserDir>, pkg: string): (r: Option<int>)
    ensures r.None? <==> forall u :: 0 <= u < |users| ==> Lookup(users[u], pkg).None?
    ensures r.Some? ==> exists u :: (0 <= u < |users| && Lookup(users[u], pkg) == r &&
      forall v :: 0 <= v < u ==> Lookup(users[v], pkg).None?)
    decreases |users|
  {
    if users == [] then None
    else if Lookup(users[0], pkg).Some? then Lookup(users[0], pkg)
    else
      var r := FirstOwner(users[1..], pkg);
      assert forall u :: 1 <= u < |users| ==> users[u] == users[1..][u - 1];
      r
  }

  /** The user loop stops at user `u` when `u` is the first directory holding `pkg`. */
  lemma FirstOwnerIs(users: seq<UserDir>, pkg: string, u: nat)
    requires u < |users| && Lookup(users[u], pkg).Some?
    requires forall v :: 0 <= v < u ==> Lookup(users[v], pkg).None?
    ensures FirstOwner(users, pkg) == Lookup(users[u], pkg)
  {
    var u0 :| 0 <= u0 < |users| && Lookup(users[u0], pkg) == FirstOwner(users, pkg) &&
      forall v :: 0 <= v < u0 ==> Lookup(users[v], pkg).None?;
    if u0 < u {
      assert Lookup(users[u0], pkg).None?;
    }
  }

  /** Every stat of the tree succeeds. */
  predicate StatsOk(users: seq<UserDir>) {
    forall k :: 0 <= k < |Flatten(users)| ==> Flatten(users)[k].uid.Some?
  }

  /** The first owner is the stat result of an entry named `pkg` somewhere in
      the scan order. */
  lemma {:induction false} FirstOwnerInFlatten(users: seq<UserDir>, pkg: string)
    ensures FirstOwner(users, pkg).Some? ==> exists k :: (0 <= k < |Flatten(users)| && Flatten(users)[k].name == pkg &&
      Flatten(users)[k].uid == FirstOwner(users, pkg))
    decreases |users|
  {
    if users != [] && FirstOwner(users, pkg).Some? {
      var n := |users[0]|;
      var tail := Flatten(users[1..]);
      assert Flatten(users) == users[0] + tail;
      if Lookup(users[0], pkg).Some? {
        var j :| 0 <= j < n && users[0][j].name == pkg && users[0][j].uid == Lookup(users[0], pkg) &&
          forall k :: 0 <= k < j ==> users[0][k].name != pkg;
        assert Flatten(users)[j] == users[0][j];
      } else {
        FirstOwnerInFlatten(users[1..], pkg);
        var k :| 0 <= k < |tail| && tail[k].name == pkg && tail[k].uid == FirstOwner(users, pkg);
        assert Flatten(users)[n + k] == tail[k];
      }
    }
  }

  /** When every stat succeeds, any entry named `pkg` in the tree yields an owner. */
  lemma {:induction false} FirstOwnerWhenStatsOk(users: seq<UserDir>, pkg: string, k: nat)
    requires StatsOk(users)
    requires k < |Flatten(users)| && Flatten(users)[k].name == pkg
    ensures FirstOwner(users, pkg).Some?
    decreases |users|
  {
    var n := |users[0]|;
    var tail := Flatten(users[1..]);
    assert Flatten(users) == users[0] + tail;
    if k < n {
      assert Flatten(users)[k] == users[0][k];
      var j :| 0 <= j < n && users[0][j].name == pkg && users[0][j].uid == Lookup(users[0], pkg) &&
        forall k :: 0 <= k < j ==> users[0][k].name != pkg;
      assert Flatten(users)[j] == users[0][j];
    } else {
      forall i | 0 <= i < |tail| ensures tail[i].uid.Some? {
        assert Flatten(users)[n + i] == tail[i];
      }
      assert Flatten(users)[k] == tail[k - n];
      FirstOwnerWhenStatsOk(users[1..], pkg, k - n);
    }
  }

  /** The patch `update_pkg_uid` applies once it found the owner: only the
      bucket of that owner's app ID changes. */
  function PatchIndex(idx: AppIndex, owner: Option<int>, pkg: string, remove: bool, toAppId: int -> int): (r: AppIndex)
    ensures owner.None? ==> r == idx
    ensures owner.Some? ==> forall b :: b != toAppId(owner.value) ==>
      (b in r <==> b in idx) && (b in r ==> r[b] == idx[b])
    ensures owner.Some? && !remove ==> var a := toAppId(owner.value);
      a in r && pkg in r[a] && r[a] - {pkg} == (if a in idx then idx[a] else {}) - {pkg}
    ensures owner.Some? && remove ==> var a := toAppId(owner.value);
      && (a in r <==> a in idx && idx[a] - {pkg} != {})
      && (a in r ==> r[a] == idx[a] - {pkg})
    ensures NoEmptyBuckets(idx) ==> NoEmptyBuckets(r)
    ensures forall keys :: IndexInList(idx, keys) && (!remove ==> pkg in keys) ==> IndexInList(r, keys)
  {
    if owner.None? then idx
    else
      var a := toAppId(owner.value);
      if remove then
        if a in idx then
          var rest := idx[a] - {pkg};
          if rest == {} then idx - {a} else idx[a := rest]
        else idx
      else idx[a := (if a in idx then idx[a] else {}) + {pkg}]
  }

  /** The user loop of `update_pkg_uid` finds an owner for `pkg`, which is
      the only way it comes to touch the index (87-95). */
  predicate PatchReaches(appData: Option<seq<UserDir>>, pkg: string) {
    appData.Some? && FirstOwner(appData.value, pkg).Some?
  }

  /** `update_pkg_uid` as a whole: nothing changes when the data directory
      cannot be opened or no user holds `pkg`. */
  function PkgUid(idx: AppIndex, appData: Option<seq<UserDir>>, pkg: string, remove: bool, toAppId: int -> int): (r: AppIndex)
    ensures !PatchReaches(appData, pkg) ==> r == idx
    ensures NoEmptyBuckets(idx) ==> NoEmptyBuckets(r)
  {
    if appData.None? then idx else PatchIndex(idx, FirstOwner(appData.value, pkg), pkg, remove, toAppId)
  }

  /** Every user directory that holds a package gives it the same app ID. */
  predicate AppIdsAgree(users: seq<UserDir>, toAppId: int -> int) {
    var es := Flatten(users);
    forall i, j :: 0 <= i < |es| && 0 <= j < |es| && es[i].name == es[j].name ==>
      toAppId(StatUid(es[i])) == toAppId(StatUid(es[j]))
  }

  /** The snapshot finds `pkg` under every app ID whose bucket holds it. */
  predicate Locates(idx: AppIndex, appData: Option<seq<UserDir>>, pkg: string, toAppId: int -> int) {
    forall a :: a in idx && pkg in idx[a] ==>
      appData.Some? && FirstOwner(appData.value, pkg).Some? && toAppId(FirstOwner(appData.value, pkg).value) == a
  }

  /** After a rescan of a tree whose users agree on app IDs and whose stats all
      succeed, the snapshot locates every indexed package. */
  lemma RescanLocates(users: seq<UserDir>, keys: set<string>, toAppId: int -> int, pkg: string)
    requires AppIdsAgree(users, toAppId) && StatsOk(users)
    ensures Locates(Rescan(Flatten(users), keys, toAppId), Some(users), pkg, toAppId)
  {
    var es := Flatten(users);
    var r := Rescan(es, keys, toAppId);
    RescanSpec(es, keys, toAppId);
    FirstOwnerInFlatten(users, pkg);
    forall a | a in r && pkg in r[a]
      ensures FirstOwner(users, pkg).Some? && toAppId(FirstOwner(users, pkg).value) == a
    {
      var i :| 0 <= i < |es| && FirstClaim(es, i, keys, toAppId) && toAppId(StatUid(es[i])) == a;
      assert es[i].name == pkg;
      FirstOwnerWhenStatsOk(users, pkg, i);
      var k :| 0 <= k < |es| && es[k].name == pkg && es[k].uid == FirstOwner(users, pkg);
      assert StatUid(es[k]) == FirstOwner(users, pkg).value;
    }
  }

  /** The two scans read a failed stat differently: the rescan files the entry
      under uid 0, while the targeted patch skips that user and takes the next
      user's owner. */
  lemma FailedStatDiffersBetweenScans(toAppId: int -> int)
    requires toAppId(0) != toAppId(10123)
    ensures var users := [[AppEntry("com.foo", None)], [AppEntry("com.foo", Some(10123))]];
      && FirstOwner(users, "com.foo") == Some(10123)
      && toAppId(0) in Rescan(Flatten(users), {"com.foo"}, toAppId)
      && "com.foo" in Rescan(Flatten(users), {"com.foo"}, toAppId)[toAppId(0)]
      && !Locates(Rescan(Flatten(users), {"com.foo"}, toAppId), Some(users), "com.foo", toAppId)
  {
    var users := [[AppEntry("com.foo", None)], [AppEntry("com.foo", Some(10123))]];
    assert Lookup(users[0], "com.foo") == None;
    assert Lookup(users[1], "com.foo") == Some(10123);
    assert FirstOwner(users, "com.foo") == Some(10123);
    var es := Flatten(users);
    assert es == [AppEntry("com.foo", None), AppEntry("com.foo", Some(10123))] by {
      assert Flatten(users) == users[0] + Flatten(users[1..]);
      assert Flatten(users[1..]) == users[1] + Flatten(users[2..]);
    }
    RescanSpec(es, {"com.foo"}, toAppId);
    assert FirstClaim(es, 0, {"com.foo"}, toAppId);
  }

  /** When the snapshot locates `pkg`, removing it takes it out of every bucket. */
  lemma RemovalClearsPackage(idx: AppIndex, appData: Option<seq<UserDir>>, pkg: string, toAppId: int -> int)
    requires Locates(idx, appData, pkg, toAppId)
    ensures forall a :: a in PkgUid(idx, appData, pkg, true, toAppId) ==> pkg !in PkgUid(idx, appData, pkg, true, toAppId)[a]
  {
  }
}
