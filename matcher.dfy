/** The matching part of `is_hide_target` (425-461): given the hide list, the
    app-ID index, the app ID of the caller and its process name, decide whether
    the process is a hide target. The loops at 429-442 and 447-460 only read
    and return early; their order does not change the answer. */
module Matcher {
  import opened HideStrings
  import opened HideList
  import opened UidIndex

  /** App IDs from here on belong to isolated processes (426). */
  const FIRST_ISOLATED_APP_ID: int := 90000

  /** The index bucket the isolated branch consults besides the sentinel (437). */
  const ISOLATED_BUCKET: int := -1

  /** `length > max_len` where `length` is a `size_t`: a negative `max_len`
      is converted to an unsigned value first. A 64-bit `size_t` is assumed;
      a 32-bit build would compare against 2^32 + `max_len` instead. */
  predicate LongerThan(n: nat, maxLen: int) {
    if maxLen < 0 then n > 0x1_0000_0000_0000_0000 + maxLen else n > maxLen
  }

  /** The long-prefix rule (431, 439, 455): both names are longer than
      `max_len` and the TARGET `s` begins with the process name. */
  predicate LongPrefix(s: string, process: string, maxLen: int) {
    LongerThan(|s|, maxLen) && LongerThan(|process|, maxLen) && StartsWith(s, process)
  }

  /** The test applied to each isolated target (431-434, 439-442). */
  predicate IsolatedHit(s: string, process: string, maxLen: int) {
    LongPrefix(s, process, maxLen) || StartsWith(process, s)
  }

  /** The test applied to each package of an ordinary bucket (455-458). */
  predicate AppHit(s: string, process: string, maxLen: int) {
    LongPrefix(s, process, maxLen) || s == process
  }

  /** The processes listed under the sentinel package, none if it is absent. */
  function IsolatedTargets(list: HideMap): (r: set<string>)
    ensures ISOLATED_MAGIC in list ==> r == list[ISOLATED_MAGIC]
    ensures ISOLATED_MAGIC !in list ==> r == {}
  {
    if ISOLATED_MAGIC in list then list[ISOLATED_MAGIC] else {}
  }

  /** Some sentinel process passes the isolated test (429-435): the one part
      of the isolated branch that reads only the list. */
  predicate SentinelHit(list: HideMap, process: string, maxLen: int) {
    exists s :: s in IsolatedTargets(list) && IsolatedHit(s, process, maxLen)
  }

  /** The caller's own bucket names a package that is not on the list: the
      lookup at 451 would then dereference `find`'s end iterator. */
  predicate StaleBucket(list: HideMap, idx: AppIndex, appId: int) {
    appId < FIRST_ISOLATED_APP_ID && appId in idx && !(idx[appId] <= list.Keys)
  }

  /** The packages of one bucket, none if the app ID has no bucket. */
  function Bucket(idx: AppIndex, a: int): (r: set<string>)
    ensures a in idx ==> r == idx[a]
    ensures a !in idx ==> r == {}
  {
    if a in idx then idx[a] else {}
  }

  /** What `is_hide_target` answers once its maps are up to date. An isolated
      app ID is a target when some sentinel process or package of bucket -1
      passes the isolated test; any other app ID needs a bucket, and then one
      of its packages must list the process, equal it, or pass the long-prefix
      rule. */
  predicate Matches(list: HideMap, idx: AppIndex, appId: int, process: string, maxLen: int) {
    if appId >= FIRST_ISOLATED_APP_ID then
      SentinelHit(list, process, maxLen) ||
      (exists s :: s in Bucket(idx, ISOLATED_BUCKET) && IsolatedHit(s, process, maxLen))
    else
      appId in idx &&
      ((exists p :: p in idx[appId] && Listed(list, p, process)) ||
       (exists s :: s in idx[appId] && AppHit(s, process, maxLen)))
  }

  /** One isolated loop (429-435 or 437-443): true at the first hit. */
  method AnyIsolatedHit(targets: set<string>, process: string, maxLen: int) returns (r: bool)
    ensures r <==> exists s :: s in targets && IsolatedHit(s, process, maxLen)
  {
    var rest := targets;
    while rest != {}
      invariant rest <= targets
      invariant forall s :: s in targets && s !in rest ==> !IsolatedHit(s, process, maxLen)
      decreases |rest|
    {
      var s :| s in rest;
      if LongerThan(|s|, maxLen) && LongerThan(|process|, maxLen) && StartsWith(s, process) {
        return true;
      }
      if StartsWith(process, s) {
        return true;
      }
      rest := rest - {s};
    }
    return false;
  }

  /** The exact-listing loop (450-453): some package of the bucket lists the
      process. Every package of the bucket must be on the list, because the
      lookup at 451 dereferences the result of `find` unchecked. */
  method AnyListsProcess(list: HideMap, pkgs: set<string>, process: string) returns (r: bool)
    requires pkgs <= list.Keys
    ensures r <==> exists p :: p in pkgs && Listed(list, p, process)
  {
    var rest := pkgs;
    while rest != {}
      invariant rest <= pkgs
      invariant forall p :: p in pkgs && p !in rest ==> !Listed(list, p, process)
      decreases |rest|
    {
      var p :| p in rest;
      if process in list[p] {
        return true;
      }
      rest := rest - {p};
    }
    return false;
  }

  /** The name loop (454-459). */
  method AnyAppHit(pkgs: set<string>, process: string, maxLen: int) returns (r: bool)
    ensures r <==> exists s :: s in pkgs && AppHit(s, process, maxLen)
  {
    var rest := pkgs;
    while rest != {}
      invariant rest <= pkgs
      invariant forall s :: s in pkgs && s !in rest ==> !AppHit(s, process, maxLen)
      decreases |rest|
    {
      var s :| s in rest;
      if LongerThan(|s|, maxLen) && LongerThan(|process|, maxLen) && StartsWith(s, process) {
        return true;
      }
      if s == process {
        return true;
      }
      rest := rest - {s};
    }
    return false;
  }

  /** The matching tail of `is_hide_target` (425-461). */
  method MatchTarget(list: HideMap, idx: AppIndex, appId: int, process: string, maxLen: int)
    returns (r: bool)
    requires !StaleBucket(list, idx, appId)
    ensures r == Matches(list, idx, appId, process, maxLen)
  {
    if appId >= FIRST_ISOLATED_APP_ID {
      if ISOLATED_MAGIC in list {
        r := AnyIsolatedHit(list[ISOLATED_MAGIC], process, maxLen);
        if r { return; }
      }
      if ISOLATED_BUCKET in idx {
        r := AnyIsolatedHit(idx[ISOLATED_BUCKET], process, maxLen);
        if r { return; }
      }
      return false;
    } else {
      if appId !in idx {
        return false;
      }
      r := AnyListsProcess(list, idx[appId], process);
      if r { return; }
      r := AnyAppHit(idx[appId], process, maxLen);
    }
  }

  // ------------------------------------------------------------- properties

  /** An ordinary app ID without a bucket is never a target. */
  lemma NoBucketNoTarget(list: HideMap, idx: AppIndex, appId: int, process: string, maxLen: int)
    requires appId < FIRST_ISOLATED_APP_ID && appId !in idx
    ensures !Matches(list, idx, appId, process, maxLen)
  {
  }

  /** A process listed under a package of the caller's bucket is a target. */
  lemma ListedProcessIsTarget(list: HideMap, idx: AppIndex, appId: int, pkg: string, process: string, maxLen: int)
    requires appId < FIRST_ISOLATED_APP_ID && appId in idx && pkg in idx[appId]
    requires Listed(list, pkg, process)
    ensures Matches(list, idx, appId, process, maxLen)
  {
  }

  /** For an ordinary app ID the packages of other buckets play no part. */
  lemma OnlyOwnBucketMatters(list: HideMap, idx: AppIndex, idx': AppIndex, appId: int, process: string, maxLen: int)
    requires appId < FIRST_ISOLATED_APP_ID
    requires (appId in idx <==> appId in idx') && (appId in idx ==> idx[appId] == idx'[appId])
    ensures Matches(list, idx, appId, process, maxLen) == Matches(list, idx', appId, process, maxLen)
  {
  }

  /** An isolated process whose name begins with a sentinel entry is a target,
      whatever the index holds. */
  lemma IsolatedPrefixIsTarget(list: HideMap, idx: AppIndex, appId: int, s: string, process: string, maxLen: int)
    requires appId >= FIRST_ISOLATED_APP_ID && Listed(list, ISOLATED_MAGIC, s) && StartsWith(process, s)
    ensures Matches(list, idx, appId, process, maxLen)
  {
    assert s in IsolatedTargets(list) && IsolatedHit(s, process, maxLen);
  }

  /** The long-prefix rule runs one way: a long package name matches a shorter
      process that begins it, but a longer process that begins with the
      package name does not. */
  lemma LongPrefixRunsOneWay()
    ensures var idx: AppIndex := map[10001 := {"com.example.app"}];
      Matches(map["com.example.app" := {"com.example.app"}], idx, 10001, "com.example", 5) &&
      !Matches(map["com.example.app" := {"com.example.app"}], idx, 10001, "com.example.app.extra", 5)
  {
    var list: HideMap := map["com.example.app" := {"com.example.app"}];
    var idx: AppIndex := map[10001 := {"com.example.app"}];
    var long := "com.example.app";
    assert long[..|"com.example"|] == "com.example";
    assert AppHit(long, "com.example", 5);
    assert !StartsWith(long, "com.example.app.extra");
    assert !AppHit(long, "com.example.app.extra", 5);
    assert "com.example.app.extra" !in list[long];
  }

  /** A negative `max_len` turns the long-prefix rule off for any name shorter
      than 2^63 bytes. */
  lemma NegativeMaxLenDisablesLongPrefix(s: string, process: string, maxLen: int)
    requires maxLen < 0 && maxLen >= -0x8000_0000 && |s| < 0x8000_0000_0000_0000
    ensures !LongPrefix(s, process, maxLen)
  {
  }

  /** The webview exclusion of the kill filter has no counterpart here: an
      isolated "webview_zygote" is a target as soon as the sentinel lists a
      prefix of it. */
  lemma WebviewZygoteCanBeTarget(maxLen: int)
    ensures Matches(map[ISOLATED_MAGIC := {"webview"}], map[], FIRST_ISOLATED_APP_ID, "webview_zygote", maxLen)
  {
    var list: HideMap := map[ISOLATED_MAGIC := {"webview"}];
    assert "webview_zygote"[..7] == "webview";
    assert "webview" in IsolatedTargets(list) && IsolatedHit("webview", "webview_zygote", maxLen);
  }
}
