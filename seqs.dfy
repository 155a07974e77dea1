/** Proof helpers: facts about sequence concatenation that proofs elsewhere
    call by name. They state nothing about the library. */
module Seqs {
  /** Regrouping a concatenation of three sequences. */
  lemma Assoc<T>(a: seq<T>, b: seq<T>, c: seq<T>)
    ensures (a + b) + c == a + (b + c)
  {
  }
}
