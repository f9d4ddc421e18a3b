/** What `ls_hide_list` (297-318) sends: the status, then one record per
    (package, process) pair in map order, then a zero length. A record is the
    length |pkg| + |proc| + 1 followed by the bytes `pkg`, '|' and `proc`.
    The map order is the byte-wise order `StringCmp` sorts keys and sets by. */
module ListWire {
  import opened HideStrings
  import opened HideList

  // ---------------------------------------------------------------- map order

  /** `m` is the smallest string of `s`. */
  predicate IsLeast(m: string, s: set<string>) {
    m in s && forall y :: y in s && y != m ==> Lt(m, y)
  }

  lemma LeastExists(s: set<string>)
    requires s != {}
    ensures exists m :: IsLeast(m, s)
  {
    var x :| x in s;
    if s != {x} {
      var rest := s - {x};
      LeastExists(rest);
      var m :| IsLeast(m, rest);
      LtTotal(x, m);
      if Lt(x, m) {
        forall y | y in s && y != x ensures Lt(x, y) {
          if y != m { LtTransitive(x, m, y); }
        }
        assert IsLeast(x, s);
      } else {
        assert IsLeast(m, s);
      }
    } else {
      assert IsLeast(x, s);
    }
  }

  /** The smallest string of a non-empty set. */
  ghost function Least(s: set<string>): (m: string)
    requires s != {}
    ensures IsLeast(m, s)
  {
    LeastExists(s);
    var m :| IsLeast(m, s); m
  }

  lemma LeastUnique(s: set<string>, k: string)
    requires IsLeast(k, s)
    ensures k == Least(s)
  {
    var m := Least(s);
    if k != m { LtAsymmetric(k, m); }
  }

  /** Strictly ascending in the byte-wise order. */
  predicate Ascending(r: seq<string>) {
    forall i, j :: 0 <= i < j < |r| ==> Lt(r[i], r[j])
  }

  /** A set in ascending order, the order a `std::set<string, StringCmp>` iterates in. */
  ghost function Sorted(s: set<string>): (r: seq<string>)
    ensures |r| == |s|
    ensures forall x :: x in r <==> x in s
    ensures Ascending(r)
    decreases |s|
  {
    if s == {} then []
    else
      var m := Least(s);
      var rest := Sorted(s - {m});
      assert forall j :: 0 < j < |[m] + rest| ==> ([m] + rest)[j] == rest[j - 1] && rest[j - 1] in s - {m};
      [m] + rest
  }

  /** The records of one package: its processes in ascending order. */
  function Row(pkg: string, procs: seq<string>): (r: seq<(string, string)>)
    ensures |r| == |procs| && forall i :: 0 <= i < |procs| ==> r[i] == (pkg, procs[i])
  {
    seq(|procs|, i requires 0 <= i < |procs| => (pkg, procs[i]))
  }

  ghost function Pairs(list: HideMap, ks: seq<string>): seq<(string, string)>
    requires forall k :: k in ks ==> k in list
    decreases |ks|
  {
    if ks == [] then []
    else
      var k := ks[|ks| - 1];
      Pairs(list, ks[..|ks| - 1]) + Row(k, Sorted(list[k]))
  }

  lemma SortedUnfold(s: set<string>, k: string)
    requires IsLeast(k, s)
    ensures Sorted(s) == [k] + Sorted(s - {k})
  {
    LeastUnique(s, k);
  }

  /** Taking the least element off the part not yet visited. */
  lemma SortedStep(all: set<string>, done: seq<string>, rest: set<string>, k: string)
    requires Sorted(all) == done + Sorted(rest)
    requires IsLeast(k, rest)
    ensures Sorted(all) == (done + [k]) + Sorted(rest - {k})
  {
    SortedUnfold(rest, k);
  }

  lemma RowSnoc(pkg: string, procs: seq<string>, p: string)
    ensures Row(pkg, procs + [p]) == Row(pkg, procs) + [(pkg, p)]
  {
  }

  lemma PairsSnoc(list: HideMap, ks: seq<string>, k: string)
    requires forall j :: j in ks ==> j in list
    requires k in list
    ensures Pairs(list, ks + [k]) == Pairs(list, ks) + Row(k, Sorted(list[k]))
  {
    assert (ks + [k])[..|ks|] == ks;
  }

  /** The pairs of the hide list in the order of the nested loops at 307-314. */
  ghost function MapOrder(list: HideMap): seq<(string, string)> {
    Pairs(list, Sorted(list.Keys))
  }

  lemma {:induction false} PairsMembers(list: HideMap, ks: seq<string>)
    requires forall k :: k in ks ==> k in list
    ensures forall e :: e in Pairs(list, ks) <==> e.0 in ks && e.1 in list[e.0]
    decreases |ks|
  {
    if ks != [] {
      var k := ks[|ks| - 1];
      var init := ks[..|ks| - 1];
      PairsMembers(list, init);
      assert ks == init + [k];
      forall e ensures e in Pairs(list, ks) <==> e.0 in ks && e.1 in list[e.0] {
        var row := Row(k, Sorted(list[k]));
        if e in row {
          var i :| 0 <= i < |row| && row[i] == e;
        }
        if e.0 == k && e.1 in list[k] {
          var i :| 0 <= i < |Sorted(list[k])| && Sorted(list[k])[i] == e.1;
          assert row[i] == e;
        }
      }
    }
  }

  /** The listing holds exactly the pairs on the hide list. */
  lemma MapOrderMembers(list: HideMap)
    ensures forall e :: e in MapOrder(list) <==> Listed(list, e.0, e.1)
  {
    PairsMembers(list, Sorted(list.Keys));
  }

  /** The processes of one package in ascending order (the inner loop at 308). */
  method ListProcs(pkg: string, procs: set<string>) returns (row: seq<(string, string)>)
    ensures row == Row(pkg, Sorted(procs))
  {
    row := [];
    var rest := procs;
    ghost var done: seq<string> := [];
    while rest != {}
      invariant Sorted(procs) == done + Sorted(rest)
      invariant row == Row(pkg, done)
      decreases |rest|
    {
      LeastExists(rest);
      var p :| IsLeast(p, rest);
      SortedStep(procs, done, rest, p);
      RowSnoc(pkg, done, p);
      row := row + [(pkg, p)];
      done := done + [p];
      rest := rest - {p};
    }
  }

  /** The pairs of the hide list in map order (the loops at 307-314). */
  method ListEntries(list: HideMap) returns (entries: seq<(string, string)>)
    ensures entries == MapOrder(list)
  {
    entries := [];
    var keys := list.Keys;
    ghost var done: seq<string> := [];
    while keys != {}
      invariant keys <= list.Keys
      invariant forall k :: k in done ==> k in list
      invariant Sorted(list.Keys) == done + Sorted(keys)
      invariant entries == Pairs(list, done)
      decreases |keys|
    {
      LeastExists(keys);
      var k :| IsLeast(k, keys);
      SortedStep(list.Keys, done, keys, k);
      var row := ListProcs(k, list[k]);
      PairsSnoc(list, done, k);
      entries := entries + row;
      done := done + [k];
      keys := keys - {k};
    }
    assert Sorted(keys) == [];
    assert done + [] == done;
  }

  // ------------------------------------------------------------- wire format

  /** What the daemon writes: `write_int` values (the status and the lengths)
      and byte runs (`xwrite`). */
  datatype Word = StatusWord(status: Status) | IntWord(n: int) | Chars(s: string)

  /** The records of the pairs, one length and one byte run `pkg|proc` each. */
  function Records(entries: seq<(string, string)>): (ws: seq<Word>)
    ensures |ws| == 2 * |entries|
    decreases |entries|
  {
    if entries == [] then []
    else
      var (pkg, proc) := entries[0];
      [IntWord(|pkg| + |proc| + 1), Chars(pkg + "|" + proc)] + Records(entries[1..])
  }

  /** The whole reply of a successful listing. */
  ghost function LsReply(list: HideMap): seq<Word> {
    [StatusWord(DaemonSuccess)] + Records(MapOrder(list)) + [IntWord(0)]
  }

  /** Index of the first '|' in `s`, or |s| when there is none. */
  function FirstBar(s: string): (i: nat)
    ensures i <= |s| && (i < |s| ==> s[i] == '|')
    ensures forall j :: 0 <= j < i ==> s[j] != '|'
    decreases |s|
  {
    if s == [] then 0
    else if s[0] == '|' then 0
    else 1 + FirstBar(s[1..])
  }

  /** A reader's split of one record at its first '|'. */
  function SplitRecord(s: string): Option<(string, string)> {
    var i := FirstBar(s);
    if i == |s| then None else Some((s[..i], s[i + 1..]))
  }

  /** A reader of the record stream that follows the status: lengths and byte
      runs up to the zero length, which must end the stream. */
  function ParseRecords(ws: seq<Word>): Option<seq<(string, string)>>
    decreases |ws|
  {
    if ws == [] || !ws[0].IntWord? then None
    else if ws[0].n == 0 then (if |ws| == 1 then Some([]) else None)
    else if |ws| < 2 || !ws[1].Chars? || |ws[1].s| != ws[0].n then None
    else match SplitRecord(ws[1].s)
      case None => None
      case Some(e) =>
        match ParseRecords(ws[2..])
        case None => None
        case Some(rest) => Some([e] + rest)
  }

  lemma SplitJoined(pkg: string, proc: string)
    requires '|' !in pkg
    ensures SplitRecord(pkg + "|" + proc) == Some((pkg, proc))
  {
    var s := pkg + "|" + proc;
    var i := FirstBar(s);
    assert s[|pkg|] == '|';
    assert i == |pkg|;
    assert s[..i] == pkg;
    assert s[i + 1..] == proc;
  }

  /** Reading the records back gives the pairs, as long as no package holds a '|'. */
  lemma {:induction false} RecordsRoundTrip(entries: seq<(string, string)>)
    requires forall i :: 0 <= i < |entries| ==> '|' !in entries[i].0
    ensures ParseRecords(Records(entries) + [IntWord(0)]) == Some(entries)
    decreases |entries|
  {
    if entries != [] {
      var (pkg, proc) := entries[0];
      var ws := Records(entries) + [IntWord(0)];
      SplitJoined(pkg, proc);
      RecordsRoundTrip(entries[1..]);
      assert ws[2..] == Records(entries[1..]) + [IntWord(0)];
      assert |pkg + "|" + proc| == |pkg| + |proc| + 1;
      assert entries == [entries[0]] + entries[1..];
    }
  }

  /** The listing of a hide list whose packages hold no '|' reads back as
      exactly the pairs on the list, in map order. */
  lemma ListingReadsBack(list: HideMap)
    requires forall pkg :: pkg in list ==> '|' !in pkg
    ensures LsReply(list)[0] == StatusWord(DaemonSuccess)
    ensures ParseRecords(LsReply(list)[1..]) == Some(MapOrder(list))
    ensures forall e :: e in MapOrder(list) <==> Listed(list, e.0, e.1)
  {
    MapOrderMembers(list);
    var es := MapOrder(list);
    forall i | 0 <= i < |es| ensures '|' !in es[i].0 {
      assert es[i] in es;
    }
    RecordsRoundTrip(es);
    assert LsReply(list)[1..] == Records(es) + [IntWord(0)];
  }
}
