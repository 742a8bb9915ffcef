/** Sequences as records from which elements are taken out. */
module Sequences {
  import opened Options

  ghost predicate Distinct<T>(s: seq<T>) { forall i, j :: 0 <= i < j < |s| ==> s[i] != s[j] }

  /** The sequence without its i-th element. */
  function Without<T>(s: seq<T>, i: nat): seq<T>
    requires i < |s|
  {
    s[..i] + s[i + 1..]
  }

  /** The last position of x, found by searching from the end. */
  function LastIndex<T(==)>(s: seq<T>, x: T): (r: Option<nat>)
    ensures r.Some? ==> r.value < |s| && s[r.value] == x && x !in s[r.value + 1..]
    ensures r.None? ==> x !in s
  {
    if s == [] then None
    else if s[|s| - 1] == x then Some(|s| - 1)
    else LastIndex(s[..|s| - 1], x)
  }

  /** There is one last position at most. */
  lemma LastIndexIs<T>(s: seq<T>, x: T, i: nat)
    requires i < |s| && s[i] == x && x !in s[i + 1..]
    ensures LastIndex(s, x) == Some(i)
  {
  }
}
