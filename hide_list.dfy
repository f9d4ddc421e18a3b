/** The hide list `pkg_to_procs`: package name -> set of process names, and
    the two edits done to it, `add_hide_set` (183-195) and the in-memory part
    of `rm_hide_list` (257-277). */
module HideList {
  import opened HideStrings

  type HideMap = map<string, set<string>>

  /** No package maps to an empty set of processes. */
  predicate NoEmptySets(list: HideMap) {
    forall pkg :: pkg in list ==> list[pkg] != {}
  }

  /** The pair (pkg, proc) is on the list. */
  predicate Listed(list: HideMap, pkg: string, proc: string) {
    pkg in list && proc in list[pkg]
  }

  /** `pkg_to_procs[pkg].emplace(proc)`: the new map and whether the pair was new. */
  function AddSet(list: HideMap, pkg: string, proc: string): (r: (HideMap, bool))
    ensures r.1 <==> !Listed(list, pkg, proc)
    ensures !r.1 ==> r.0 == list
    ensures r.0.Keys == list.Keys + {pkg}
    ensures r.0[pkg] == (if pkg in list then list[pkg] else {}) + {proc}
    ensures forall p :: p in list && p != pkg ==> r.0[p] == list[p]
    ensures NoEmptySets(list) ==> NoEmptySets(r.0)
  {
    var old_procs := if pkg in list then list[pkg] else {};
    var r := list[pkg := old_procs + {proc}];
    assert proc in old_procs ==> old_procs + {proc} == list[pkg] && r == list;
    (r, proc !in old_procs)
  }

  /** The in-memory part of `rm_hide_list`: an empty process drops the whole
      package; otherwise one process goes, and the package with it when its set
      becomes empty. The flag says whether anything was removed. */
  function RemoveEntry(list: HideMap, pkg: string, proc: string): (r: (HideMap, bool))
    ensures r.1 <==> pkg in list && (proc == "" || proc in list[pkg])
    ensures !r.1 ==> r.0 == list
    ensures r.1 && proc == "" ==> pkg !in r.0
    ensures r.1 ==> !Listed(r.0, pkg, proc)
    ensures r.1 && proc != "" ==> forall q :: q != proc ==> (Listed(r.0, pkg, q) <==> Listed(list, pkg, q))
    ensures r.0.Keys <= list.Keys
    ensures forall p :: p in list && p != pkg ==> p in r.0 && r.0[p] == list[p]
  {
    if pkg !in list then (list, false)
    else if proc == "" then (list - {pkg}, true)
    else if proc !in list[pkg] then (list, false)
    else
      var rest := list[pkg] - {proc};
      assert rest == {} ==> forall q :: q != proc ==> q !in list[pkg] by {
        forall q | q != proc && q in list[pkg] ensures rest != {} { assert q in rest; }
      }
      if rest == {} then (list - {pkg}, true) else (list[pkg := rest], true)
  }

  /** Removal never leaves a package mapped to an empty set. */
  lemma {:induction false} RemoveKeepsNoEmptySets(list: HideMap, pkg: string, proc: string)
    ensures NoEmptySets(list) ==> NoEmptySets(RemoveEntry(list, pkg, proc).0)
  {
    var r := RemoveEntry(list, pkg, proc).0;
    forall p | NoEmptySets(list) && p in r ensures r[p] != {} {
      if p != pkg || proc == "" || pkg !in list || proc !in list[pkg] {
        assert r[p] == list[p];
      } else {
        assert r[p] == list[pkg] - {proc};
      }
    }
  }

  /** Adding a pair a second time changes nothing and says so. */
  lemma AddIsIdempotent(list: HideMap, pkg: string, proc: string)
    ensures AddSet(AddSet(list, pkg, proc).0, pkg, proc) == (AddSet(list, pkg, proc).0, false)
  {
  }

  /** Adding a new pair, then removing it, restores the list. */
  lemma {:induction false} AddThenRemove(list: HideMap, pkg: string, proc: string)
    requires NoEmptySets(list)
    requires proc != "" && !Listed(list, pkg, proc)
    ensures RemoveEntry(AddSet(list, pkg, proc).0, pkg, proc) == (list, true)
  {
    var added := AddSet(list, pkg, proc).0;
    var r := RemoveEntry(added, pkg, proc).0;
    if pkg in list {
      assert added[pkg] - {proc} == list[pkg];
      assert r == list[pkg := list[pkg]];
    } else {
      assert added[pkg] - {proc} == {};
      assert r.Keys == list.Keys;
    }
    assert r == list;
  }
}
