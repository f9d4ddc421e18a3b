/** Shared vocabulary of the hide-list engine: optional values, status codes,
    the string predicates the source imports from its utility headers, and the
    byte-wise string order that `std::map<string, ..., StringCmp>` iterates in. */
module HideStrings {

  datatype Option<T> = None | Some(value: T)

  /** Status codes returned to the control channel. Their numeric values live
      in headers outside this model, so they are kept symbolic. */
  datatype Status =
    | DaemonSuccess
    | DaemonError
    | HideItemExist
    | HideItemNotExist
    | HideNoNs
    | HideInvalidPkg

  /** The sentinel package that stands for "any isolated process". */
  const ISOLATED_MAGIC: string := "isolated"

  /** `str_starts(s, ss)`: `s` begins with `ss`. */
  predicate StartsWith(s: string, prefix: string) {
    |prefix| <= |s| && s[..|prefix|] == prefix
  }

  /** `str_ends(s, ss)`: `s` ends with `ss`. */
  predicate EndsWith(s: string, suffix: string) {
    |suffix| <= |s| && s[|s| - |suffix|..] == suffix
  }

  /** `isalnum` on ASCII. */
  predicate IsAlnum(c: char) {
    ('a' <= c <= 'z') || ('A' <= c <= 'Z') || ('0' <= c <= '9')
  }

  /** Strict byte-wise lexicographic order, the order of `StringCmp`. */
  predicate Lt(a: string, b: string)
    decreases |a|
  {
    if a == [] then b != []
    else if b == [] then false
    else if a[0] != b[0] then a[0] < b[0]
    else Lt(a[1..], b[1..])
  }

  lemma {:induction false} LtIrreflexive(a: string)
    ensures !Lt(a, a)
    decreases |a|
  {
    if a != [] { LtIrreflexive(a[1..]); }
  }

  lemma {:induction false} LtAsymmetric(a: string, b: string)
    ensures Lt(a, b) ==> !Lt(b, a)
    decreases |a|
  {
    if a != [] && b != [] && a[0] == b[0] { LtAsymmetric(a[1..], b[1..]); }
  }

  lemma {:induction false} LtTransitive(a: string, b: string, c: string)
    requires Lt(a, b) && Lt(b, c)
    ensures Lt(a, c)
    decreases |a|
  {
    if a != [] && a[0] == b[0] && b[0] == c[0] {
      LtTransitive(a[1..], b[1..], c[1..]);
    }
  }

  lemma {:induction false} LtTotal(a: string, b: string)
    ensures a == b || Lt(a, b) || Lt(b, a)
    decreases |a|
  {
    if a != [] && b != [] && a[0] == b[0] {
      LtTotal(a[1..], b[1..]);
      if a[1..] == b[1..] {
        assert a == [a[0]] + a[1..] && b == [b[0]] + b[1..];
      }
    }
  }
}
