/**
  The restorer: the memoised depth-first search over fragment lengths and
  candidate words, and `restore`, which runs it from the start of the text
  and trims the sentence it finds.
*/
module Restorer {
  import opened Wrappers
  import opened Collections
  import opened Lexicons
  import opened Candidates
  import opened Segmentation

  /** What the search returns for a suffix: the sentence built so far and its score. */
  datatype Result = Result(sentence: string, score: int)

  /** The `Result` the search builds for a restoration: its words joined by single spaces, and its score. */
  function Render(c: Option<Choice>): Option<Result>
  {
    match c
    case None => None
    case Some(choice) => Some(Result(Joined(choice.words), choice.score))
  }

  /** `Character` counts as blank for `String.trim`: any code point up to the space. */
  predicate Blank(c: char)
  {
    c <= ' '
  }

  /** `s` with its leading blanks removed. */
  function TrimStart(s: string): (r: string)
    ensures |r| <= |s| && r == s[|s| - |r|..]
    ensures forall i :: 0 <= i < |s| - |r| ==> Blank(s[i])
    ensures r == [] || !Blank(r[0])
  {
    if s == [] || !Blank(s[0]) then s
    else TrimStart(s[1..])
  }

  /** `s` with its trailing blanks removed. */
  function TrimEnd(s: string): (r: string)
    ensures |r| <= |s| && r == s[..|r|]
    ensures forall i :: |r| <= i < |s| ==> Blank(s[i])
    ensures r == [] || !Blank(r[|r| - 1])
  {
    if s == [] || !Blank(s[|s| - 1]) then s
    else TrimEnd(s[..|s| - 1])
  }

  /**
    `String.trim`: the longest slice of `s` that neither starts nor ends with
    a blank, once only blanks are cut from either end.
  */
  function Trim(s: string): (r: string)
    ensures exists i, j :: 0 <= i <= j <= |s| && r == s[i..j]
                && (forall k :: 0 <= k < i ==> Blank(s[k]))
                && (forall k :: j <= k < |s| ==> Blank(s[k]))
    ensures r == [] || (!Blank(r[0]) && !Blank(r[|r| - 1]))
  {
    var front := TrimStart(s);
    var r := TrimEnd(front);
    TrimSlice(s, front, r);
    r
  }

  /** Cutting leading blanks, then trailing blanks, leaves a slice of `s` cut from blanks only, with no blank at either end. */
  lemma TrimSlice(s: string, front: string, r: string)
    requires |front| <= |s| && front == s[|s| - |front|..]
    requires forall i :: 0 <= i < |s| - |front| ==> Blank(s[i])
    requires front == [] || !Blank(front[0])
    requires |r| <= |front| && r == front[..|r|]
    requires forall i :: |r| <= i < |front| ==> Blank(front[i])
    requires r == [] || !Blank(r[|r| - 1])
    ensures exists i, j :: 0 <= i <= j <= |s| && r == s[i..j]
                && (forall k :: 0 <= k < i ==> Blank(s[k]))
                && (forall k :: j <= k < |s| ==> Blank(s[k]))
    ensures r == [] || (!Blank(r[0]) && !Blank(r[|r| - 1]))
  {
    var i := |s| - |front|;
    var j := i + |r|;
    assert r == s[i..j];
    forall k | j <= k < |s|
      ensures Blank(s[k])
    {
      assert s[k] == front[k - i];
    }
    if r != [] {
      assert r[0] == front[0];
    }
  }

  /** A sentence whose words neither start nor end with a blank is left unchanged by `trim`. */
  lemma {:induction false} TrimJoinedIsIdentity(words: seq<string>)
    requires forall i :: 0 <= i < |words| ==> words[i] != [] && !Blank(words[i][0]) && !Blank(words[i][|words[i]| - 1])
    ensures Trim(Joined(words)) == Joined(words)
  {
    var s := Joined(words);
    if s != [] {
      JoinedEnds(words);
      assert TrimStart(s) == s;
      assert TrimEnd(s) == s;
    }
  }

  /** A joined sentence of such words starts with the first word's first character and ends with the last word's last one. */
  lemma {:induction false} JoinedEnds(words: seq<string>)
    requires forall i :: 0 <= i < |words| ==> words[i] != [] && !Blank(words[i][0]) && !Blank(words[i][|words[i]| - 1])
    ensures Joined(words) == [] || (!Blank(Joined(words)[0]) && !Blank(Joined(words)[|Joined(words)| - 1]))
    decreases |words|
  {
    if |words| > 1 {
      var tail := words[1..];
      forall i | 0 <= i < |tail|
        ensures tail[i] != [] && !Blank(tail[i][0]) && !Blank(tail[i][|tail[i]| - 1])
      {
        assert tail[i] == words[i + 1];
      }
      JoinedEnds(tail);
      var s := Joined(words);
      assert s == words[0] + " " + Joined(tail);
      assert s[0] == words[0][0];
      assert s[|s| - 1] == Joined(tail)[|Joined(tail)| - 1];
    }
  }

  /**
    One run of `restore`: the text, the two tables, and the memo that
    `dfsWithScore` fills, keyed by position and previous word. A stored
    `None` records that the suffix cannot be restored after that word.
  */
  class MemoSearch {
    const lex: Lexicon
    const text: string
    var memo: map<(nat, string), Option<Result>>

    /** Every memo entry is what the search specification keeps for its suffix and previous word. */
    predicate Valid()
      reads this
    {
      forall key {:trigger memo[key]} :: key in memo ==> key.0 <= |text| && memo[key] == Render(Best(lex, text, key.0, key.1))
    }

    constructor (lex: Lexicon, text: string)
      ensures this.lex == lex && this.text == text && memo == map[]
      ensures Valid()
    {
      this.lex := lex;
      this.text := text;
      memo := map[];
    }

    /**
      `dfsWithScore`: the empty result at the end of the text, the memo entry
      when there is one, and otherwise the best of trying every candidate of
      every fragment length from the longest down, which is then stored.
    */
    method DfsWithScore(index: nat, prevWord: string) returns (result: Option<Result>)
      requires Valid() && index <= |text|
      modifies this
      ensures Valid()
      ensures result == Render(Best(lex, text, index, prevWord))
      ensures forall key :: key in old(memo) ==> key in memo
      ensures index < |text| ==> (index, prevWord) in memo
      decreases |text| - index, 1
    {
      if index == |text| {
        return Some(Result("", 0));
      }
      var key := (index, prevWord);
      if key in memo {
        return memo[key];
      }
      var bestResult: Option<Result> := None;
      ghost var bestChoice: Option<Choice> := None;
      var len: nat := MaxLength(text, index);
      while len >= 1
        invariant len <= MaxLength(text, index)
        invariant Valid()
        invariant forall k :: k in old(memo) ==> k in memo
        invariant bestResult == Render(bestChoice)
        invariant Fold(Options(lex, text, index, prevWord, len), bestChoice) == Best(lex, text, index, prevWord)
        decreases len
      {
        var fragment := text[index..index + len];
        var candidates := GetMatchingWords(lex, fragment);
        OptionsFoldStep(lex, text, index, prevWord, len, bestChoice);
        bestResult := TryCandidates(index, prevWord, len, candidates, bestResult, bestChoice);
        bestChoice := Fold(CandidateOptions(lex, text, index, prevWord, len, candidates), bestChoice);
        len := len - 1;
      }
      memo := memo[key := bestResult];
      return bestResult;
    }

    /**
      The inner loop of `dfsWithScore`: tries the candidates for the next
      `len` characters in order, scoring each with the best restoration of
      the rest of the text after it, and replaces the running best only on a
      strictly higher score.
    */
    method TryCandidates(index: nat, prevWord: string, len: nat, candidates: seq<string>,
                         bestSoFar: Option<Result>, ghost choiceSoFar: Option<Choice>)
      returns (bestResult: Option<Result>)
      requires Valid() && 1 <= len && index + len <= |text|
      requires bestSoFar == Render(choiceSoFar)
      modifies this
      ensures Valid()
      ensures bestResult == Render(Fold(CandidateOptions(lex, text, index, prevWord, len, candidates), choiceSoFar))
      ensures forall key :: key in old(memo) ==> key in memo
      decreases |text| - index, 0
    {
      bestResult := bestSoFar;
      ghost var bestChoice := choiceSoFar;
      for k := 0 to |candidates|
        invariant Valid()
        invariant forall k :: k in old(memo) ==> k in memo
        invariant bestResult == Render(bestChoice)
        invariant Fold(CandidateOptions(lex, text, index, prevWord, len, candidates[k..]), bestChoice)
               == Fold(CandidateOptions(lex, text, index, prevWord, len, candidates), choiceSoFar)
      {
        var candidate := candidates[k];
        CandidateOptionsFoldStep(lex, text, index, prevWord, len, candidates, k, bestChoice);
        var next := DfsWithScore(index + len, candidate);
        if next.Some? {
          var baseScore := GetOrDefault(lex.weights, candidate, 1);
          var lengthBonus := |candidate| * LENGTH_BONUS_MULTIPLIER;
          var bigramBonus := BigramScore(lex.bigrams, prevWord, candidate);
          var totalScore := baseScore + lengthBonus + bigramBonus + next.value.score;
          CandidateStep(lex, text, index, prevWord, len, candidate, bestChoice, bestResult, next, totalScore);
          if bestResult.None? || totalScore > bestResult.value.score {
            var sentence := candidate + (if next.value.sentence == "" then "" else " " + next.value.sentence);
            bestResult := Some(Result(sentence, totalScore));
          }
        } else {
          CandidateStep(lex, text, index, prevWord, len, candidate, bestChoice, bestResult, next, 0);
        }
        bestChoice := Fold(CandidateOption(lex, text, index, prevWord, len, candidate), bestChoice);
      }
      assert candidates[|candidates|..] == [];
    }
  }

  /**
    One candidate of `dfsWithScore`: the running best is replaced exactly
    when the suffix after the candidate can be restored and the candidate's
    total scores strictly more, and then by the candidate followed by the
    suffix's sentence, with a space between only when that sentence is non-empty.
  */
  lemma {:induction false} CandidateStep(lex: Lexicon, text: string, index: nat, prev: string, len: nat, word: string,
                                         best: Option<Choice>, current: Option<Result>, next: Option<Result>, total: int)
    requires 1 <= len && index + len <= |text|
    requires current == Render(best) && next == Render(Best(lex, text, index + len, word))
    requires next.Some? ==> total == StepScore(lex, prev, word) + next.value.score
    ensures Render(Fold(CandidateOption(lex, text, index, prev, len, word), best))
         == if next.Some? && (current.None? || total > current.value.score)
            then Some(Result(word + (if next.value.sentence == "" then "" else " " + next.value.sentence), total))
            else current
  {
    var options := CandidateOption(lex, text, index, prev, len, word);
    if Best(lex, text, index + len, word).Some? {
      var rest := Best(lex, text, index + len, word).value;
      var c := Choice([word] + rest.words, StepScore(lex, prev, word) + rest.score);
      assert options == [c];
      assert Fold(options, best) == Fold([], Better(best, c));
      RestIsNonEmptyWords(lex, text, index + len, word);
      JoinedCons(word, rest.words);
    } else {
      assert options == [];
    }
  }

  /** The words the search keeps for a suffix are all non-empty. */
  lemma RestIsNonEmptyWords(lex: Lexicon, text: string, index: nat, prev: string)
    requires index <= |text| && Best(lex, text, index, prev).Some?
    ensures forall i :: 0 <= i < |Best(lex, text, index, prev).value.words| ==> Best(lex, text, index, prev).value.words[i] != ""
  {
    BestSound(lex, text, index, prev);
    SplitCoversSuffix(lex, text, index, Best(lex, text, index, prev).value.words);
  }

  /**
    The shape of what `dfsWithScore` returns for `text[index..]` after
    `prev`: the empty sentence with score 0 at the end of the text; nothing
    exactly when the suffix has no split; otherwise the words of a split
    joined by single spaces, whose lengths add up to the suffix's length,
    with that split's score, which no other split exceeds.
  */
  lemma {:induction false} SearchResultShape(lex: Lexicon, text: string, index: nat, prev: string)
    requires index <= |text|
    ensures index == |text| ==> Render(Best(lex, text, index, prev)) == Some(Result("", 0))
    ensures Render(Best(lex, text, index, prev)).None? <==> !exists words :: IsSplit(lex, text, index, words)
    ensures Render(Best(lex, text, index, prev)).Some? ==>
      var r := Render(Best(lex, text, index, prev)).value;
      exists words :: && IsSplit(lex, text, index, words)
                      && r.sentence == Joined(words)
                      && TotalLength(words) == |text| - index
                      && r.score == SplitScore(lex, prev, words)
                      && forall other :: IsSplit(lex, text, index, other) ==> SplitScore(lex, prev, other) <= r.score
  {
    BestIsOptimal(lex, text, index, prev);
    if Best(lex, text, index, prev).Some? {
      var words := Best(lex, text, index, prev).value.words;
      SplitCoversSuffix(lex, text, index, words);
      var r := Render(Best(lex, text, index, prev)).value;
      assert IsSplit(lex, text, index, words) && r.sentence == Joined(words) && TotalLength(words) == |text| - index;
    }
  }

  /**
    What `restore` returns: nothing when the search finds nothing from the
    start of the text with no previous word, else the trimmed sentence.
  */
  function Restored(lex: Lexicon, text: string): Option<string>
  {
    match Best(lex, text, 0, "")
    case None => None
    case Some(c) => Some(Trim(Joined(c.words)))
  }

  /**
    `restore` gives up exactly when the text has no split into dictionary
    words, and otherwise returns the trimmed sentence of a split whose score
    no other split exceeds.
  */
  lemma RestoredIsOptimal(lex: Lexicon, text: string)
    ensures Restored(lex, text).None? <==> !exists words :: IsSplit(lex, text, 0, words)
    ensures Restored(lex, text).Some? ==>
      exists words :: && IsSplit(lex, text, 0, words)
                      && Restored(lex, text).value == Trim(Joined(words))
                      && forall other :: IsSplit(lex, text, 0, other) ==> SplitScore(lex, "", other) <= SplitScore(lex, "", words)
  {
    BestIsOptimal(lex, text, 0, "");
    if Best(lex, text, 0, "").Some? {
      var words := Best(lex, text, 0, "").value.words;
      assert IsSplit(lex, text, 0, words) && Restored(lex, text).value == Trim(Joined(words));
    }
  }

  /** `restore`: runs the search on a fresh memo from position 0 with no previous word, then trims. */
  method Restore(lex: Lexicon, text: string) returns (restored: Option<string>)
    ensures restored == Restored(lex, text)
    ensures restored.None? <==> !exists words :: IsSplit(lex, text, 0, words)
    ensures restored.Some? ==>
      exists words :: && IsSplit(lex, text, 0, words)
                      && restored.value == Trim(Joined(words))
                      && forall other :: IsSplit(lex, text, 0, other) ==> SplitScore(lex, "", other) <= SplitScore(lex, "", words)
  {
    var search := new MemoSearch(lex, text);
    var result := search.DfsWithScore(0, "");
    BestIsOptimal(lex, text, 0, "");
    if result.None? {
      restored := None;
    } else {
      restored := Some(Trim(result.value.sentence));
      ghost var words := Best(lex, text, 0, "").value.words;
      assert IsSplit(lex, text, 0, words) && restored.value == Trim(Joined(words));
    }
  }
}
