/**
  The two tables the restorer reads: word weights and bigram weights.

  Java's `HashMap.keySet()` yields the dictionary's keys in an order the
  program does not control; the model makes that order an explicit part of
  the lexicon, `keyOrder`, which lists every key exactly once.
*/
module Lexicons {
  import opened Collections

  /** Nested bigram weights: predecessor -> (successor -> weight). */
  type BigramTable = map<string, map<string, int>>

  datatype Tables = Tables(weights: map<string, int>, keyOrder: seq<string>, bigrams: BigramTable)
  {
    /** `keyOrder` is an enumeration of the dictionary's keys without repetition. */
    predicate WellFormed()
    {
      && NoDuplicates(keyOrder)
      && (forall w :: w in keyOrder ==> w in weights)
      && (forall w :: w in weights ==> w in keyOrder)
    }
  }

  /** The dictionary, its key enumeration order, and the bigram table. */
  type Lexicon = t: Tables | t.WellFormed() witness Tables(map[], [], map[])

  /**
    `getBigramScore`: no bonus at the start of a sentence (empty predecessor),
    otherwise the stored weight of the pair, or no bonus when it is absent.
  */
  function BigramScore(bigrams: BigramTable, prev: string, current: string): (r: int)
    ensures prev == "" || prev !in bigrams || current !in bigrams[prev] ==> r == 0
    ensures prev != "" && prev in bigrams && current in bigrams[prev] ==> r == bigrams[prev][current]
  {
    if prev == "" then 0
    else GetOrDefault(GetOrDefault(bigrams, prev, map[]), current, 0)
  }

  /** The table after `addBigram(w1, w2, score)`: the inner map of `w1` is created if absent. */
  function WithBigram(bigrams: BigramTable, w1: string, w2: string, score: int): BigramTable
  {
    bigrams[w1 := GetOrDefault(bigrams, w1, map[])[w2 := score]]
  }

  /**
    After storing a pair with a non-empty predecessor, looking it up yields the
    stored score; every other lookup is unchanged.
  */
  lemma {:induction false} BigramScoreAfterAdd(bigrams: BigramTable, w1: string, w2: string, score: int, prev: string, current: string)
    ensures BigramScore(WithBigram(bigrams, w1, w2, score), prev, current)
         == if prev != "" && prev == w1 && current == w2 then score else BigramScore(bigrams, prev, current)
  {
  }

  /** The program-wide bigram table that `addBigram` fills in place. */
  class BigramModel {
    var table: BigramTable

    constructor ()
      ensures table == map[]
    {
      table := map[];
    }

    /** `addBigram`: stores `score` for the pair (w1, w2), replacing any earlier score. */
    method AddBigram(w1: string, w2: string, score: int)
      modifies this
      ensures table == WithBigram(old(table), w1, w2, score)
      ensures forall prev, current :: BigramScore(table, prev, current)
                == if prev != "" && prev == w1 && current == w2 then score else BigramScore(old(table), prev, current)
    {
      table := WithBigram(table, w1, w2, score);
      forall prev, current
        ensures BigramScore(table, prev, current)
             == if prev != "" && prev == w1 && current == w2 then score else BigramScore(old(table), prev, current)
      {
        BigramScoreAfterAdd(old(table), w1, w2, score, prev, current);
      }
    }
  }
}
