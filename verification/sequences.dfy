/** Order-preserving sub-lists and duplicate-freedom, the two list shapes the
    page's derived state is stated in. */
module Sequences {

  /** `xs` is `ys` with some elements dropped and the rest kept in order. */
  predicate IsSubsequence<T(==)>(xs: seq<T>, ys: seq<T>)
    decreases |ys|
  {
    || |xs| == 0
    || (&& |ys| > 0
        && ((xs[0] == ys[0] && IsSubsequence(xs[1..], ys[1..])) || IsSubsequence(xs, ys[1..])))
  }

  predicate NoDuplicates<T(==)>(s: seq<T>) {
    forall i, j :: 0 <= i < j < |s| ==> s[i] != s[j]
  }
}
