/** Concatenation. */
module Sequences {
  lemma ConcatAssoc<T>(a: seq<T>, b: seq<T>, c: seq<T>)
    ensures (a + b) + c == a + (b + c)
  {}

  lemma ConcatEmpty<T>(a: seq<T>)
    ensures a + [] == a && [] + a == a
  {}

  /** The first element of a concatenation and the rest. */
  lemma ConcatFirst<T>(a: seq<T>, b: seq<T>)
    requires a != []
    ensures a + b != [] && (a + b)[0] == a[0] && (a + b)[1..] == a[1..] + b
  {}

  /** The last element of a concatenation and the front. */
  lemma ConcatLast<T>(a: seq<T>, b: seq<T>)
    requires b != []
    ensures var n := |a + b| - 1; n >= 0 && (a + b)[n] == b[|b| - 1] && (a + b)[..n] == a + b[..|b| - 1]
  {}
}
