/** The process crawl and kill selection: `crawl_procfs` (105-118),
    `proc_name_match` (120-132), `kill_process` (136-145) and `str_ends_safe`
    (320-325). The process table is a snapshot (pid, first line of cmdline);
    "killing" a process means reporting its pid. */
module ProcKill {
  import opened HideStrings

  /** One `/proc` entry: the pid `parse_int` reads from its name (not positive
      for non-numeric names) and the command line, absent if it cannot be opened. */
  datatype ProcEntry = ProcEntry(pid: int, cmdline: Option<string>)

  /** The string operation `proc_name_match` is instantiated with. */
  datatype StrOp = StrEql | StrStarts | StrEndsSafe

  /** `str_ends_safe`: ends with, but never for the WebView zygote. */
  predicate EndsSafe(s: string, ss: string) {
    s != "webview_zygote" && EndsWith(s, ss)
  }

  predicate Apply(op: StrOp, s: string, ss: string) {
    match op
    case StrEql => s == ss
    case StrStarts => StartsWith(s, ss)
    case StrEndsSafe => EndsSafe(s, ss)
  }

  /** `proc_name_match<op>(pid, name)`: the cmdline could be read and matches. */
  predicate ProcNameMatch(op: StrOp, e: ProcEntry, name: string) {
    e.cmdline.Some? && Apply(op, e.cmdline.value, name)
  }

  /** An entry the crawl hands to the callback (pid > 0) and the filter accepts. */
  predicate Hit(op: StrOp, e: ProcEntry, name: string) {
    e.pid > 0 && ProcNameMatch(op, e, name)
  }

  /** The pids of all hits, in table order. */
  function MatchingPids(procs: seq<ProcEntry>, name: string, op: StrOp): (pids: seq<int>)
    ensures |pids| <= |procs|
    decreases |procs|
  {
    if procs == [] then []
    else
      var last := procs[|procs| - 1];
      MatchingPids(procs[..|procs| - 1], name, op) + (if Hit(op, last, name) then [last.pid] else [])
  }

  /** What `kill_process(name, multi, filter)` kills: every hit when `multi`,
      otherwise only the first one. */
  function Victims(procs: seq<ProcEntry>, name: string, multi: bool, op: StrOp): (v: seq<int>)
    ensures forall x :: x in v ==> x in MatchingPids(procs, name, op)
  {
    var all := MatchingPids(procs, name, op);
    if multi || all == [] then all else [all[0]]
  }

  lemma {:induction false} MatchingPidsAppend(a: seq<ProcEntry>, b: seq<ProcEntry>, name: string, op: StrOp)
    ensures MatchingPids(a + b, name, op) == MatchingPids(a, name, op) + MatchingPids(b, name, op)
    decreases |b|
  {
    if b == [] {
      assert a + b == a;
    } else {
      var b' := b[..|b| - 1];
      assert (a + b)[..|a + b| - 1] == a + b';
      MatchingPidsAppend(a, b', name, op);
    }
  }

  /** A pid is reported exactly when some entry with that pid is a hit. */
  lemma {:induction false} MatchingPidsMembers(procs: seq<ProcEntry>, name: string, op: StrOp)
    ensures forall x :: x in MatchingPids(procs, name, op) <==>
      exists i :: 0 <= i < |procs| && Hit(op, procs[i], name) && procs[i].pid == x
    decreases |procs|
  {
    if procs != [] {
      var init := procs[..|procs| - 1];
      MatchingPidsMembers(init, name, op);
      forall x ensures x in MatchingPids(procs, name, op) <==>
        exists i :: 0 <= i < |procs| && Hit(op, procs[i], name) && procs[i].pid == x
      {
        if x in MatchingPids(procs, name, op) && x in MatchingPids(init, name, op) {
          var i :| 0 <= i < |init| && Hit(op, init[i], name) && init[i].pid == x;
          assert procs[i] == init[i];
        }
        if exists i :: 0 <= i < |procs| && Hit(op, procs[i], name) && procs[i].pid == x {
          var i :| 0 <= i < |procs| && Hit(op, procs[i], name) && procs[i].pid == x;
          if i < |init| { assert init[i] == procs[i]; }
        }
      }
    }
  }

  /** No hit at all gives no pid; otherwise the first pid is that of the first hit. */
  lemma {:induction false} MatchingPidsFirst(procs: seq<ProcEntry>, name: string, op: StrOp)
    ensures MatchingPids(procs, name, op) == [] <==> forall i :: 0 <= i < |procs| ==> !Hit(op, procs[i], name)
    ensures MatchingPids(procs, name, op) != [] ==>
      exists i :: 0 <= i < |procs| && Hit(op, procs[i], name) &&
        MatchingPids(procs, name, op)[0] == procs[i].pid &&
        forall j :: 0 <= j < i ==> !Hit(op, procs[j], name)
    decreases |procs|
  {
    if procs != [] {
      var init := procs[..|procs| - 1];
      MatchingPidsFirst(init, name, op);
      assert forall j :: 0 <= j < |init| ==> init[j] == procs[j];
    }
  }

  /** Without `multi` at most one process is killed: the first hit, if any. */
  lemma SingleKillIsFirstHit(procs: seq<ProcEntry>, name: string, op: StrOp)
    ensures |Victims(procs, name, false, op)| <= 1
    ensures Victims(procs, name, false, op) == [] <==> forall i :: 0 <= i < |procs| ==> !Hit(op, procs[i], name)
    ensures Victims(procs, name, false, op) != [] ==>
      exists i :: 0 <= i < |procs| && Hit(op, procs[i], name) &&
        Victims(procs, name, false, op) == [procs[i].pid] &&
        forall j :: 0 <= j < i ==> !Hit(op, procs[j], name)
  {
    MatchingPidsFirst(procs, name, op);
  }

  /** With `multi` every hit is killed, and nothing else. */
  lemma MultiKillIsEveryHit(procs: seq<ProcEntry>, name: string, op: StrOp)
    ensures forall x :: x in Victims(procs, name, true, op) <==>
      exists i :: 0 <= i < |procs| && Hit(op, procs[i], name) && procs[i].pid == x
  {
    MatchingPidsMembers(procs, name, op);
  }

  /** The crawl skips entries whose pid is not positive. */
  lemma NonPositivePidsNeverKilled(procs: seq<ProcEntry>, name: string, multi: bool, op: StrOp)
    ensures forall x :: x in Victims(procs, name, multi, op) ==> x > 0
  {
    MatchingPidsMembers(procs, name, op);
  }

  /** The `_zygote` filter never selects the WebView zygote, although its name
      ends with `_zygote`; pids of a process table are distinct. */
  lemma ZygoteFilterSparesWebview(procs: seq<ProcEntry>, multi: bool, k: nat)
    requires forall i, j :: 0 <= i < j < |procs| ==> procs[i].pid != procs[j].pid
    requires k < |procs| && procs[k].cmdline == Some("webview_zygote")
    ensures EndsWith("webview_zygote", "_zygote")
    ensures procs[k].pid !in Victims(procs, "_zygote", multi, StrEndsSafe)
  {
    MatchingPidsMembers(procs, "_zygote", StrEndsSafe);
    assert "webview_zygote"[7..] == "_zygote";
  }

  /** `kill_process` driving `crawl_procfs`: walk the table, skip pids that are
      not positive, and stop at the first kill unless `multi`. */
  method KillProcess(procs: seq<ProcEntry>, name: string, multi: bool, op: StrOp)
    returns (victims: seq<int>)
    ensures victims == Victims(procs, name, multi, op)
  {
    victims := [];
    var i := 0;
    while i < |procs|
      invariant 0 <= i <= |procs|
      invariant victims == MatchingPids(procs[..i], name, op)
      invariant !multi ==> victims == []
    {
      var e := procs[i];
      assert procs[..i + 1][..i] == procs[..i];
      if e.pid > 0 {
        var matched := e.cmdline.Some? && Apply(op, e.cmdline.value, name);
        if matched {
          victims := victims + [e.pid];
          if !multi {
            MatchingPidsAppend(procs[..i + 1], procs[i + 1..], name, op);
            assert procs[..i + 1] + procs[i + 1..] == procs;
            return;
          }
        }
      }
      i := i + 1;
    }
    assert procs[..i] == procs;
  }
}
