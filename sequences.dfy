/** Facts about sequences shared by the cache sweep and the settings table. */
module Sequences {

  /** True when no element occurs twice in `xs`. */
  ghost predicate Distinct<T>(xs: seq<T>)
  {
    forall i, j :: 0 <= i < j < |xs| ==> xs[i] != xs[j]
  }
}
