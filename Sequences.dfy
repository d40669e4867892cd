/** Facts about sequences that the proofs over names and encodings share. */
module Sequences {

  /** Concatenation is associative (stated once, generically, so that each use is cheap). */
  lemma ConcatAssociative<T>(a: seq<T>, b: seq<T>, c: seq<T>)
    ensures a + (b + c) == (a + b) + c
  {
  }
}
