/** The two scan shapes that occur in the bootstrap code: a loop that stops at its
    first hit, and a loop that overwrites a variable on every hit. */
module Seqs {
  import opened Wrappers

  /** Index of the first element at or after `from` that satisfies `p`: what a
      range-for that returns or breaks on its first hit finds. */
  function FirstMatch<T>(s: seq<T>, p: T -> bool, from: nat): (r: Option<nat>)
    requires from <= |s|
    ensures r.Some? ==> from <= r.value < |s| && p(s[r.value])
    ensures r.Some? ==> forall j :: from <= j < r.value ==> !p(s[j])
    ensures r.None? ==> forall j :: from <= j < |s| ==> !p(s[j])
    decreases |s| - from
  {
    if from == |s| then None
    else if p(s[from]) then Some(from)
    else FirstMatch(s, p, from + 1)
  }

  /** Index of the last element before position `n` that satisfies `p`: what a
      variable holds after a loop over the first `n` elements assigned it on every hit. */
  function LastMatch<T>(s: seq<T>, p: T -> bool, n: nat): (r: Option<nat>)
    requires n <= |s|
    ensures r.Some? ==> r.value < n && p(s[r.value])
    ensures r.Some? ==> forall j :: r.value < j < n ==> !p(s[j])
    ensures r.None? ==> forall j :: 0 <= j < n ==> !p(s[j])
  {
    if n == 0 then None
    else if p(s[n - 1]) then Some(n - 1)
    else LastMatch(s, p, n - 1)
  }
}
