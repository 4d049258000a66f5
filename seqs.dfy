/** Facts about sequences that the codec and the handlers share. */
module Seqs {

  /** Concatenation re-associates to the right. */
  lemma AppendRight<T>(a: seq<T>, b: seq<T>, rest: seq<T>)
    ensures (a + b) + rest == a + (b + rest)
  {
  }

}
