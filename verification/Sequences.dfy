/** Facts about sequences of any elements. */
module Sequences {

  lemma Associative<T>(a: seq<T>, b: seq<T>, c: seq<T>)
    ensures a + b + c == a + (b + c)
  {
  }

  ghost predicate Distinct<T>(s: seq<T>) {
    forall i, j :: 0 <= i < j < |s| ==> s[i] != s[j]
  }

  lemma DistinctSplice<T>(s: seq<T>, i: nat, d: nat, x: T)
    requires Distinct(s) && x !in s && i + d <= |s|
    ensures Distinct(s[..i] + [x] + s[i + d..])
  {
  }
}
