/** Generic facts about sequences that the stream proofs apply to concrete terms. */
module SeqFacts {
  lemma ConcatAssoc<T>(x: seq<T>, y: seq<T>, z: seq<T>)
    ensures x + (y + z) == (x + y) + z
  {
  }

  lemma NilConcat<T>(x: seq<T>)
    ensures [] + x == x
  {
  }

  lemma Singleton<T>(w: seq<T>)
    requires |w| == 1
    ensures w == [w[0]]
  {
  }

  lemma LastOfTail<T>(w: seq<T>)
    requires |w| >= 2
    ensures w[1..][|w| - 2] == w[|w| - 1]
  {
  }

  /** A non-empty sequence is its prefix followed by its last element. */
  lemma LastSplit<T>(w: seq<T>)
    requires |w| >= 1
    ensures w == w[..|w| - 1] + [w[|w| - 1]] && w[..|w|] == w
  {
  }
}
