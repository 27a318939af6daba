/** Stock helpers shared by the modules. */
module Wrappers {
  datatype Option<+T> = None | Some(value: T)

  /** The lowest number from `from` on that is not taken. */
  function LowestNotIn(taken: set<nat>, from: nat): (n: nat)
    ensures from <= n && n !in taken
    ensures forall k :: from <= k < n ==> k in taken
    decreases taken
  {
    if from !in taken then from else LowestNotIn(taken - {from}, from + 1)
  }
}
