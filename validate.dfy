/** The name validator `validate` (utils.cpp 147-181): a character-class check
    on a (package, process) pair, with a separate rule for the isolated sentinel. */
module Validation {
  import opened HideStrings

  /** Characters of a package-name segment (the '.' separator is separate). */
  predicate PkgChar(c: char) { IsAlnum(c) || c == '_' }

  /** Characters allowed anywhere in an ordinary process name. */
  predicate ProcChar(c: char) { IsAlnum(c) || c == '_' || c == ':' || c == '.' }

  /** Characters allowed in the prefix of an isolated process name. */
  predicate IsolatedChar(c: char) { IsAlnum(c) || c == '_' || c == '.' }

  /** A package name: segment characters and dots only, with at least one dot. */
  predicate PkgNameOk(pkg: string) {
    (forall i :: 0 <= i < |pkg| ==> PkgChar(pkg[i]) || pkg[i] == '.') && '.' in pkg
  }

  /** An ordinary process name: process characters only (it may be empty). */
  predicate ProcNameOk(proc: string) {
    forall i :: 0 <= i < |proc| ==> ProcChar(proc[i])
  }

  /** An isolated process name: everything before the first ':' is an isolated
      character; whatever follows that ':' is unconstrained. */
  predicate IsolatedNameOk(proc: string) {
    forall i :: 0 <= i < |proc| && (forall j :: 0 <= j <= i ==> proc[j] != ':') ==> IsolatedChar(proc[i])
  }

  /** The package loop (162-171); `dot` is the running `pkg_valid` flag. */
  function ScanPkg(s: string, dot: bool): (ok: bool)
    ensures ok <==> (forall i :: 0 <= i < |s| ==> PkgChar(s[i]) || s[i] == '.') && (dot || '.' in s)
    decreases |s|
  {
    if s == [] then dot
    else if PkgChar(s[0]) then ScanPkg(s[1..], dot)
    else if s[0] == '.' then ScanPkg(s[1..], true)
    else false
  }

  /** The ordinary process loop (173-178). */
  function ScanProc(s: string): (ok: bool)
    ensures ok <==> ProcNameOk(s)
    decreases |s|
  {
    if s == [] then true
    else if ProcChar(s[0]) then ScanProc(s[1..])
    else false
  }

  /** The isolated process loop (153-160): a ':' ends the scan successfully. */
  function ScanIsolated(s: string): (ok: bool)
    ensures ok <==> IsolatedNameOk(s)
    decreases |s|
  {
    if s == [] then true
    else if IsolatedChar(s[0]) then ScanIsolated(s[1..])
    else if s[0] == ':' then true
    else false
  }

  /** `validate(pkg, proc)`: the pair is accepted exactly when the sentinel's
      process prefix, or the package and the process, use the allowed characters. */
  function Validate(pkg: string, proc: string): (ok: bool)
    ensures pkg == ISOLATED_MAGIC ==> (ok <==> IsolatedNameOk(proc))
    ensures pkg != ISOLATED_MAGIC ==> (ok <==> PkgNameOk(pkg) && ProcNameOk(proc))
  {
    if pkg == ISOLATED_MAGIC then ScanIsolated(proc)
    else ScanPkg(pkg, false) && ScanProc(proc)
  }

  /** An accepted package never contains the '|' that separates the two halves
      of a listing record. */
  lemma ValidatedPkgHasNoBar(pkg: string, proc: string)
    requires Validate(pkg, proc)
    ensures '|' !in pkg
  {
  }

  /** `add("com.foo$", "p")` is rejected. */
  lemma RejectsDollarInPackage()
    ensures !Validate("com.foo$", "p")
  {
    var pkg := "com.foo$";
    assert !(PkgChar(pkg[7]) || pkg[7] == '.');
  }

  /** `add(ISOLATED_MAGIC, "proc:123")` is accepted: the colon starts a free suffix. */
  lemma AcceptsIsolatedWithSuffix()
    ensures Validate(ISOLATED_MAGIC, "proc:123")
  {
    var p := "proc:123";
    assert ScanIsolated(p[4..]);
  }

  /** The empty process defaults to the package name (219-221); for an ordinary
      package the default is always an acceptable process name. */
  lemma DefaultProcessOfValidPackage(pkg: string)
    requires pkg != ISOLATED_MAGIC && PkgNameOk(pkg)
    ensures Validate(pkg, pkg)
  {
  }
}
