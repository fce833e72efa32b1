/** Literal first-occurrence search, shared by `Buffer.indexOf` on the
    baseline binary and by `String.prototype.replace` with a string pattern
    on the prelude template. */
module Search {
  import opened Common

  /** `pat` occurs in `hay` starting at index `i`. */
  predicate OccursAt<T(==)>(hay: seq<T>, pat: seq<T>, i: int)
  {
    0 <= i && i + |pat| <= |hay| && hay[i..i + |pat|] == pat
  }

  /** The first index at or after `from` where `pat` occurs, if any. An
      empty pattern is found at `from`, as Node's `indexOf` does. */
  function IndexOfFrom<T(==)>(hay: seq<T>, pat: seq<T>, from: nat): (r: Option<nat>)
    ensures r.Some? ==> from <= r.value && OccursAt(hay, pat, r.value)
    ensures r.Some? ==> forall j :: from <= j < r.value ==> !OccursAt(hay, pat, j)
    ensures r.None? ==> forall j :: from <= j ==> !OccursAt(hay, pat, j)
    decreases |hay| - from
  {
    if from + |pat| > |hay| then None
    else if hay[from..from + |pat|] == pat then Some(from)
    else IndexOfFrom(hay, pat, from + 1)
  }

  /** `hay.indexOf(pat)`, with `None` standing for -1. */
  function IndexOf<T(==)>(hay: seq<T>, pat: seq<T>): (r: Option<nat>)
    ensures r.Some? ==> OccursAt(hay, pat, r.value)
    ensures r.Some? ==> forall j :: 0 <= j < r.value ==> !OccursAt(hay, pat, j)
    ensures r.None? <==> forall j :: !OccursAt(hay, pat, j)
  {
    IndexOfFrom(hay, pat, 0)
  }
}
