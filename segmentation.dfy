/**
  The specification of the scored search: which segmentations of a damaged
  suffix exist, what each one scores, and which one the search keeps.
*/
module Segmentation {
  import opened Wrappers
  import opened Collections
  import opened FragmentMatcher
  import opened Lexicons
  import opened Candidates

  /** Longest fragment the search tries. */
  const MAX_WORD_LENGTH: nat := 15

  /** Score per character of a chosen word. */
  const LENGTH_BONUS_MULTIPLIER: int := 5

  /** A restoration of a suffix: the chosen words, left to right, and their total score. */
  datatype Choice = Choice(words: seq<string>, score: int)

  /**
    What choosing `word` after `prev` adds to the score: its weight (1 when
    absent), five points per character, and the bigram bonus.
  */
  function StepScore(lex: Lexicon, prev: string, word: string): int
  {
    GetOrDefault(lex.weights, word, 1) + |word| * LENGTH_BONUS_MULTIPLIER + BigramScore(lex.bigrams, prev, word)
  }

  /** Total score of restoring with `words` after `prev`. */
  function SplitScore(lex: Lexicon, prev: string, words: seq<string>): int
    decreases |words|
  {
    if words == [] then 0
    else StepScore(lex, prev, words[0]) + SplitScore(lex, words[0], words[1..])
  }

  /**
    `words` split `text[index..]` into consecutive fragments of 1 to 15
    characters, each produced by the dictionary word standing for it.
  */
  ghost predicate IsSplit(lex: Lexicon, text: string, index: nat, words: seq<string>)
    requires index <= |text|
    decreases |words|
  {
    if words == [] then index == |text|
    else
      var w := words[0];
      && 1 <= |w| <= MAX_WORD_LENGTH
      && index + |w| <= |text|
      && w in lex.weights
      && WordMatch(w, text[index..index + |w|])
      && IsSplit(lex, text, index + |w|, words[1..])
  }

  /** The words separated by single spaces. */
  function Joined(words: seq<string>): string
    decreases |words|
  {
    if words == [] then ""
    else if |words| == 1 then words[0]
    else words[0] + " " + Joined(words[1..])
  }

  /** Sum of the word lengths. */
  function TotalLength(words: seq<string>): nat
    decreases |words|
  {
    if words == [] then 0 else |words[0]| + TotalLength(words[1..])
  }

  /** A split covers the whole suffix with words of 1 to 15 characters. */
  lemma {:induction false} SplitCoversSuffix(lex: Lexicon, text: string, index: nat, words: seq<string>)
    requires index <= |text| && IsSplit(lex, text, index, words)
    ensures TotalLength(words) == |text| - index
    ensures forall i :: 0 <= i < |words| ==> 1 <= |words[i]| <= MAX_WORD_LENGTH
    decreases |words|
  {
    if words != [] {
      SplitCoversSuffix(lex, text, index + |words[0]|, words[1..]);
      forall i | 1 <= i < |words|
        ensures 1 <= |words[i]| <= MAX_WORD_LENGTH
      {
        assert words[i] == words[1..][i - 1];
      }
    }
  }

  /** A non-empty sentence starts with its first word. */
  lemma {:induction false} JoinedStartsWithFirst(words: seq<string>)
    requires words != []
    ensures |Joined(words)| >= |words[0]|
  {
  }

  /**
    The sentence `dfsWithScore` builds from a word and the suffix's sentence,
    adding a space only when the suffix's sentence is non-empty, is the
    words joined by single spaces, as long as the suffix's words are non-empty.
  */
  lemma {:induction false} JoinedCons(word: string, words: seq<string>)
    requires forall i :: 0 <= i < |words| ==> words[i] != ""
    ensures Joined([word] + words) == word + (if Joined(words) == "" then "" else " " + Joined(words))
  {
    if words != [] {
      JoinedStartsWithFirst(words);
      assert ([word] + words)[1..] == words;
    }
  }

  /** Keeps `best` unless `c` scores strictly higher (the first maximum stays). */
  function Better(best: Option<Choice>, c: Choice): Option<Choice>
  {
    if best.None? || c.score > best.value.score then Some(c) else best
  }

  /** The outcome of trying `options` in order, starting from `best`. */
  function Fold(options: seq<Choice>, best: Option<Choice>): Option<Choice>
    decreases |options|
  {
    if options == [] then best else Fold(options[1..], Better(best, options[0]))
  }

  /** `options[k]` has the highest score, and every option before it scores strictly less. */
  ghost predicate FirstMaximum(options: seq<Choice>, k: int)
  {
    && 0 <= k < |options|
    && (forall j :: 0 <= j < |options| ==> options[j].score <= options[k].score)
    && (forall j :: 0 <= j < k ==> options[j].score < options[k].score)
  }

  /**
    Trying options with a strict comparison keeps the starting choice when no
    option beats it, and otherwise ends on the first option of highest score.
  */
  lemma {:induction false} FoldKeepsFirstMaximum(options: seq<Choice>, best: Option<Choice>)
    ensures var r := Fold(options, best);
      || (r == best && forall j :: 0 <= j < |options| ==> best.Some? && options[j].score <= best.value.score)
      || (exists k :: FirstMaximum(options, k) && r == Some(options[k]) && (best.Some? ==> best.value.score < options[k].score))
    decreases |options|
  {
    if options != [] {
      var next := Better(best, options[0]);
      var tail := options[1..];
      FoldKeepsFirstMaximum(tail, next);
      var r := Fold(options, best);
      assert r == Fold(tail, next);
      if r == next && forall j :: 0 <= j < |tail| ==> next.Some? && tail[j].score <= next.value.score {
        forall j | 1 <= j < |options|
          ensures options[j].score <= next.value.score
        {
          assert options[j] == tail[j - 1];
        }
        if next == best {
          assert best.Some? && options[0].score <= best.value.score;
        } else {
          assert FirstMaximum(options, 0);
        }
      } else {
        var k :| FirstMaximum(tail, k) && r == Some(tail[k]) && (next.Some? ==> next.value.score < tail[k].score);
        assert options[k + 1] == tail[k];
        forall j | 1 <= j < |options|
          ensures options[j].score <= options[k + 1].score
          ensures j < k + 1 ==> options[j].score < options[k + 1].score
        {
          assert options[j] == tail[j - 1];
        }
        assert FirstMaximum(options, k + 1);
      }
    }
  }

  /** `Fold(a + b)` is `Fold(b)` resumed from where `Fold(a)` stopped. */
  lemma {:induction false} FoldConcat(a: seq<Choice>, b: seq<Choice>, best: Option<Choice>)
    ensures Fold(a + b, best) == Fold(b, Fold(a, best))
    decreases |a|
  {
    if a == [] {
      assert a + b == b;
    } else {
      assert (a + b)[0] == a[0] && (a + b)[1..] == a[1..] + b;
      assert Fold(a + b, best) == Fold(a[1..] + b, Better(best, a[0]));
      FoldConcat(a[1..], b, Better(best, a[0]));
    }
  }

  /** Longest fragment tried at `index`: `min(15, |text| - index)`. */
  function MaxLength(text: string, index: nat): nat
    requires index <= |text|
  {
    if MAX_WORD_LENGTH < |text| - index then MAX_WORD_LENGTH else |text| - index
  }

  /**
    The restoration `dfsWithScore` keeps for `text[index..]` after `prev`:
    the empty restoration at the end of the text, and otherwise the first
    option of highest score, or none when there is no option.
  */
  function Best(lex: Lexicon, text: string, index: nat, prev: string): Option<Choice>
    requires index <= |text|
    decreases |text| - index, 2, 0
  {
    if index == |text| then Some(Choice([], 0))
    else Fold(Options(lex, text, index, prev, MaxLength(text, index)), None)
  }

  /**
    The options at `index`, in the order the search tries them: fragment
    lengths from `len` down to 1, and for each length the candidates in the
    order `getMatchingWords` returns them.
  */
  function Options(lex: Lexicon, text: string, index: nat, prev: string, len: nat): seq<Choice>
    requires index + len <= |text|
    decreases |text| - index, 1, len
  {
    if len == 0 then []
    else
      CandidateOptions(lex, text, index, prev, len, MatchingWords(lex, text[index..index + len]))
      + Options(lex, text, index, prev, len - 1)
  }

  /** The options contributed by `candidates` for the fragment of length `len`. */
  function CandidateOptions(lex: Lexicon, text: string, index: nat, prev: string, len: nat, candidates: seq<string>): seq<Choice>
    requires 1 <= len && index + len <= |text|
    decreases |text| - index, 0, |candidates|
  {
    if candidates == [] then []
    else
      CandidateOption(lex, text, index, prev, len, candidates[0])
      + CandidateOptions(lex, text, index, prev, len, candidates[1..])
  }

  /** The option of choosing `word` for the next `len` characters: none when the rest cannot be restored. */
  function CandidateOption(lex: Lexicon, text: string, index: nat, prev: string, len: nat, word: string): seq<Choice>
    requires 1 <= len && index + len <= |text|
    decreases |text| - index, 0, 0
  {
    match Best(lex, text, index + len, word)
    case None => []
    case Some(rest) => [Choice([word] + rest.words, StepScore(lex, prev, word) + rest.score)]
  }

  /** Trying the options from `len` down is trying the candidates of length `len`, then the shorter options. */
  lemma {:induction false} OptionsFoldStep(lex: Lexicon, text: string, index: nat, prev: string, len: nat, best: Option<Choice>)
    requires 1 <= len && index + len <= |text|
    ensures Fold(Options(lex, text, index, prev, len), best)
         == Fold(Options(lex, text, index, prev, len - 1),
                 Fold(CandidateOptions(lex, text, index, prev, len, MatchingWords(lex, text[index..index + len])), best))
  {
    FoldConcat(CandidateOptions(lex, text, index, prev, len, MatchingWords(lex, text[index..index + len])),
               Options(lex, text, index, prev, len - 1), best);
  }

  /** Trying the candidates from the `k`-th on is trying the `k`-th, then the ones after it. */
  lemma {:induction false} CandidateOptionsFoldStep(lex: Lexicon, text: string, index: nat, prev: string, len: nat, candidates: seq<string>, k: nat, best: Option<Choice>)
    requires 1 <= len && index + len <= |text| && k < |candidates|
    ensures Fold(CandidateOptions(lex, text, index, prev, len, candidates[k..]), best)
         == Fold(CandidateOptions(lex, text, index, prev, len, candidates[k + 1..]),
                 Fold(CandidateOption(lex, text, index, prev, len, candidates[k]), best))
  {
    var tail := candidates[k..];
    assert tail[0] == candidates[k] && tail[1..] == candidates[k + 1..];
    FoldConcat(CandidateOption(lex, text, index, prev, len, candidates[k]),
               CandidateOptions(lex, text, index, prev, len, candidates[k + 1..]), best);
  }

  /** A restoration is a split of the suffix, scored by its words. */
  ghost predicate Sound(lex: Lexicon, text: string, index: nat, prev: string, c: Choice)
    requires index <= |text|
  {
    IsSplit(lex, text, index, c.words) && c.score == SplitScore(lex, prev, c.words)
  }

  /** Whatever the search keeps is a split of the suffix, and its score is that split's score. */
  lemma {:induction false} BestSound(lex: Lexicon, text: string, index: nat, prev: string)
    requires index <= |text|
    ensures Best(lex, text, index, prev).Some? ==> Sound(lex, text, index, prev, Best(lex, text, index, prev).value)
    decreases |text| - index, 2, 0
  {
    if index < |text| {
      var options := Options(lex, text, index, prev, MaxLength(text, index));
      OptionsSound(lex, text, index, prev, MaxLength(text, index));
      FoldKeepsFirstMaximum(options, None);
    }
  }

  lemma {:induction false} OptionsSound(lex: Lexicon, text: string, index: nat, prev: string, len: nat)
    requires index + len <= |text| && len <= MAX_WORD_LENGTH
    ensures forall c :: c in Options(lex, text, index, prev, len) ==> Sound(lex, text, index, prev, c)
    decreases |text| - index, 1, len
  {
    if len > 0 {
      MatchingWordsAreCandidates(lex, text[index..index + len]);
      CandidateOptionsSound(lex, text, index, prev, len, MatchingWords(lex, text[index..index + len]));
      OptionsSound(lex, text, index, prev, len - 1);
    }
  }

  lemma {:induction false} CandidateOptionsSound(lex: Lexicon, text: string, index: nat, prev: string, len: nat, candidates: seq<string>)
    requires 1 <= len <= MAX_WORD_LENGTH && index + len <= |text|
    requires forall w :: w in candidates ==> w in lex.weights && WordMatch(w, text[index..index + len])
    ensures forall c :: c in CandidateOptions(lex, text, index, prev, len, candidates) ==> Sound(lex, text, index, prev, c)
    decreases |text| - index, 0, |candidates|
  {
    if candidates != [] {
      var w := candidates[0];
      assert w in candidates;
      BestSound(lex, text, index + len, w);
      if Best(lex, text, index + len, w).Some? {
        var rest := Best(lex, text, index + len, w).value;
        var words := [w] + rest.words;
        assert words[0] == w && words[1..] == rest.words;
        assert |w| == len;
        assert IsSplit(lex, text, index, words);
      }
      CandidateOptionsSound(lex, text, index, prev, len, candidates[1..]);
    }
  }

  /** The options for fragment length `l <= len` are among the options from `len` down. */
  lemma {:induction false} OptionsIncludeLength(lex: Lexicon, text: string, index: nat, prev: string, len: nat, l: nat, c: Choice)
    requires 1 <= l <= len && index + len <= |text|
    requires c in CandidateOptions(lex, text, index, prev, l, MatchingWords(lex, text[index..index + l]))
    ensures c in Options(lex, text, index, prev, len)
    decreases len
  {
    if l < len {
      OptionsIncludeLength(lex, text, index, prev, len - 1, l, c);
    }
  }

  lemma {:induction false} CandidateOptionsContain(lex: Lexicon, text: string, index: nat, prev: string, len: nat, candidates: seq<string>, w: string, c: Choice)
    requires 1 <= len && index + len <= |text|
    requires w in candidates && c in CandidateOption(lex, text, index, prev, len, w)
    ensures c in CandidateOptions(lex, text, index, prev, len, candidates)
    decreases |candidates|
  {
    var first := CandidateOption(lex, text, index, prev, len, candidates[0]);
    var others := CandidateOptions(lex, text, index, prev, len, candidates[1..]);
    assert CandidateOptions(lex, text, index, prev, len, candidates) == first + others;
    if candidates[0] != w {
      CandidateOptionsContain(lex, text, index, prev, len, candidates[1..], w, c);
    }
  }

  /** Choosing a dictionary word that produces the next fragment, followed by a restoration of the rest, is an option. */
  lemma {:induction false} WordChoiceIsOption(lex: Lexicon, text: string, index: nat, prev: string, w: string, rest: Choice)
    requires 1 <= |w| <= MAX_WORD_LENGTH && index + |w| <= |text|
    requires w in lex.weights && WordMatch(w, text[index..index + |w|])
    requires Best(lex, text, index + |w|, w) == Some(rest)
    ensures Choice([w] + rest.words, StepScore(lex, prev, w) + rest.score) in Options(lex, text, index, prev, MaxLength(text, index))
  {
    var l := |w|;
    var candidates := MatchingWords(lex, text[index..index + l]);
    MatchingWordsAreCandidates(lex, text[index..index + l]);
    var c := Choice([w] + rest.words, StepScore(lex, prev, w) + rest.score);
    assert CandidateOption(lex, text, index, prev, l, w) == [c];
    CandidateOptionsContain(lex, text, index, prev, l, candidates, w, c);
    OptionsIncludeLength(lex, text, index, prev, MaxLength(text, index), l, c);
  }

  /** Every split of the suffix is found, and none scores more than the one the search keeps. */
  lemma {:induction false} BestComplete(lex: Lexicon, text: string, index: nat, prev: string, words: seq<string>)
    requires index <= |text| && IsSplit(lex, text, index, words)
    ensures Best(lex, text, index, prev).Some?
    ensures SplitScore(lex, prev, words) <= Best(lex, text, index, prev).value.score
    decreases |words|
  {
    if words != [] {
      var w := words[0];
      var l := |w|;
      assert IsSplit(lex, text, index + l, words[1..]);
      BestComplete(lex, text, index + l, w, words[1..]);
      var rest := Best(lex, text, index + l, w).value;
      assert SplitScore(lex, prev, words) <= StepScore(lex, prev, w) + rest.score;
      WordChoiceIsOption(lex, text, index, prev, w, rest);
      var options := Options(lex, text, index, prev, MaxLength(text, index));
      var c := Choice([w] + rest.words, StepScore(lex, prev, w) + rest.score);
      var j :| 0 <= j < |options| && options[j] == c;
      FoldKeepsFirstMaximum(options, None);
    }
  }

  /**
    The search's specification: it finds a restoration exactly when the suffix
    has a split (whatever the previous word), and the restoration it keeps is
    a split whose score is the highest over all splits.
  */
  lemma {:induction false} BestIsOptimal(lex: Lexicon, text: string, index: nat, prev: string)
    requires index <= |text|
    ensures Best(lex, text, index, prev).None? <==> !exists words :: IsSplit(lex, text, index, words)
    ensures Best(lex, text, index, prev).Some? ==>
      var c := Best(lex, text, index, prev).value;
      && IsSplit(lex, text, index, c.words)
      && c.score == SplitScore(lex, prev, c.words)
      && forall words :: IsSplit(lex, text, index, words) ==> SplitScore(lex, prev, words) <= c.score
  {
    BestSound(lex, text, index, prev);
    forall words | IsSplit(lex, text, index, words)
      ensures Best(lex, text, index, prev).Some?
      ensures SplitScore(lex, prev, words) <= Best(lex, text, index, prev).value.score
    {
      BestComplete(lex, text, index, prev, words);
    }
    if Best(lex, text, index, prev).Some? {
      var found := Best(lex, text, index, prev).value;
      assert Sound(lex, text, index, prev, found);
      assert IsSplit(lex, text, index, found.words);
      assert exists words :: IsSplit(lex, text, index, words);
    } else {
      forall words
        ensures !IsSplit(lex, text, index, words)
      {
        if IsSplit(lex, text, index, words) {
          BestComplete(lex, text, index, prev, words);
        }
      }
    }
  }

  /**
    Tie-break: among the options in enumeration order (longer fragment first,
    then candidate order), the search keeps the first one of highest score.
  */
  lemma {:induction false} BestIsFirstMaximum(lex: Lexicon, text: string, index: nat, prev: string)
    requires index < |text|
    ensures var options := Options(lex, text, index, prev, MaxLength(text, index));
      && (Best(lex, text, index, prev).None? <==> options == [])
      && (options != [] ==> exists k :: FirstMaximum(options, k) && Best(lex, text, index, prev) == Some(options[k]))
  {
    FoldKeepsFirstMaximum(Options(lex, text, index, prev, MaxLength(text, index)), None);
  }
}
