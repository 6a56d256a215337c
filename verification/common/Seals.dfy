/** Facts kept closed. The body of a sealed predicate, `forall k: Seal | Unsealed(k) :: ...`, unfolds only where
    a proof mentions `Unsealed(Seal)`; elsewhere the predicate is one fact that is handed on as it is. There are
    two kinds: what a loop has established so far is `Unsealed`, what relates two states of a value is `Unfolded`. */
module Seals {
  datatype Seal = Seal

  predicate Unsealed(k: Seal) { true }

  predicate Unfolded(k: Seal) { true }
}
