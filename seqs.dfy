/** Small facts about sequence concatenation, shared by the modules of this model. */
module Seqs {

  /** Concatenation regroups freely. */
  lemma Assoc<T>(x: seq<T>, y: seq<T>, z: seq<T>)
    ensures x + (y + z) == x + y + z
  {
  }

  /** A nonempty sequence is its head followed by its tail. */
  lemma ConsTail<T>(s: seq<T>)
    requires s != []
    ensures [s[0]] + s[1..] == s
  {
  }

  /** A two-element display is the concatenation of its singletons. */
  lemma ConsPair<T>(a: T, b: T)
    ensures [a, b] == [a] + [b]
  {
  }

  /** A three-element display is its head followed by the other two. */
  lemma ConsTriple<T>(a: T, b: T, c: T)
    ensures [a, b, c] == [a] + [b, c]
  {
  }
}
