/** Laws of concatenation, named, so that proofs can ask for them where they need them. */
module Sequences {
  lemma Regroup<T>(a: seq<T>, b: seq<T>, c: seq<T>)
    ensures (a + b) + c == a + (b + c)
  {
  }

  lemma NothingBefore<T>(s: seq<T>)
    ensures [] + s == s
  {
  }
}
