/** Sequence facts that proofs have to be reminded of. */
module Sequences {
  lemma Regroup<T>(a: seq<T>, b: seq<T>, c: seq<T>)
    ensures a + (b + c) == a + b + c && a + [] == a && [] + c == c
  {
  }

  lemma RegroupPair<T>(p: seq<T>, a: T, b: T, rest: seq<T>)
    ensures p + [a] + [b] + rest == p + ([a, b] + rest)
  {
  }
}
