/** Concatenation of sequences is associative; stated as a lemma so that a proof can use it where it is needed. */
module Sequences {

  lemma Assoc<T>(a: seq<T>, b: seq<T>, c: seq<T>)
    ensures a + b + c == a + (b + c)
  {
  }
}
