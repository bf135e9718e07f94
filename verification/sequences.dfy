/** Facts about sequences that the other modules share. */
module Seqs {

  /** Concatenation may be regrouped. */
  lemma Assoc<T>(x: seq<T>, y: seq<T>, z: seq<T>)
    ensures x + (y + z) == x + y + z
  {
  }
}
