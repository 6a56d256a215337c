/** Sequences of ids. */
module Sequences {

  /** No id occurs twice. */
  predicate Distinct(s: seq<int>) {
    forall i, j | 0 <= i < j < |s| :: s[i] != s[j]
  }
}
