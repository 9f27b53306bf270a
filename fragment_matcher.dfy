/**
  The fragment matcher: decides whether a dictionary word can have produced a
  damaged fragment, either position by position with `*` standing for any
  character, or as an anagram whose `*` positions stand for the word's
  characters that the fragment does not name.
*/
module FragmentMatcher {
  import opened Collections

  /** The wildcard marker of the damaged text. */
  const WILDCARD: char := '*'

  /** Number of wildcard positions in `s`. */
  function Stars(s: string): nat
  {
    if s == [] then 0
    else Stars(s[..|s| - 1]) + (if s[|s| - 1] == WILDCARD then 1 else 0)
  }

  /** The characters of `s` other than the wildcard, as a multiset: what a word must supply. */
  function Required(s: string): multiset<char>
  {
    if s == [] then multiset{}
    else Required(s[..|s| - 1]) + (if s[|s| - 1] == WILDCARD then multiset{} else multiset{s[|s| - 1]})
  }

  /** Every position of a pattern is either a wildcard or a required character. */
  lemma {:induction false} RequiredAndStarsCover(s: string)
    ensures |Required(s)| + Stars(s) == |s|
    ensures Required(s)[WILDCARD] == 0
  {
    if s != [] {
      RequiredAndStarsCover(s[..|s| - 1]);
    }
  }

  /** Positional match: each pattern position is a wildcard or the word's character there. */
  predicate ExactMatch(word: string, pattern: string)
    requires |word| <= |pattern|
  {
    forall i :: 0 <= i < |word| ==> pattern[i] == WILDCARD || pattern[i] == word[i]
  }

  /**
    Anagram match: the word holds every required character of the pattern at
    least as often as the pattern names it, and the word characters left over
    are exactly as many as the pattern's wildcards.
  */
  predicate AnagramMatch(word: string, pattern: string)
  {
    && Required(pattern) <= multiset(word)
    && |word| - |Required(pattern)| == Stars(pattern)
  }

  /** The matcher as a whole: equal lengths, then a positional or an anagram match. */
  predicate WordMatch(word: string, fragment: string)
  {
    |word| == |fragment| && (ExactMatch(word, fragment) || AnagramMatch(word, fragment))
  }

  /** `n` copies of `c`. */
  ghost function Copies(c: char, n: nat): (m: multiset<char>)
    ensures |m| == n && m[c] == n
    ensures forall d :: d != c ==> m[d] == 0
  {
    if n == 0 then multiset{} else Copies(c, n - 1) + multiset{c}
  }

  /** `isExactMatch`: scans the word and fails at the first position the pattern contradicts. */
  method IsExactMatch(word: string, pattern: string) returns (b: bool)
    requires |word| <= |pattern|
    ensures b == ExactMatch(word, pattern)
  {
    for i := 0 to |word|
      invariant forall j :: 0 <= j < i ==> pattern[j] == WILDCARD || pattern[j] == word[j]
    {
      var pc := pattern[i];
      if pc != WILDCARD && pc != word[i] {
        return false;
      }
    }
    return true;
  }

  /** The first loop of `isAnagramMatch`: how often each character occurs in the word. */
  method CountWord(word: string) returns (wordCount: map<char, int>)
    ensures forall c :: GetOrDefault(wordCount, c, 0) == multiset(word)[c]
  {
    wordCount := map[];
    for i := 0 to |word|
      invariant forall c :: GetOrDefault(wordCount, c, 0) == multiset(word[..i])[c]
    {
      assert word[..i + 1] == word[..i] + [word[i]];
      wordCount := wordCount[word[i] := GetOrDefault(wordCount, word[i], 0) + 1];
    }
    assert word[..|word|] == word;
  }

  /**
    The second loop of `isAnagramMatch`: wildcards are counted in `stars`,
    every other character in `patternCount`, which holds only positive counts.
  */
  method CountPattern(pattern: string) returns (patternCount: map<char, int>, stars: int)
    ensures stars == Stars(pattern)
    ensures forall c :: GetOrDefault(patternCount, c, 0) == Required(pattern)[c]
    ensures forall c :: c in patternCount ==> patternCount[c] > 0
  {
    patternCount, stars := map[], 0;
    for i := 0 to |pattern|
      invariant stars == Stars(pattern[..i])
      invariant forall c :: GetOrDefault(patternCount, c, 0) == Required(pattern[..i])[c]
      invariant forall c :: c in patternCount ==> patternCount[c] > 0
    {
      assert pattern[..i + 1][..i] == pattern[..i];
      if pattern[i] == WILDCARD {
        stars := stars + 1;
      } else {
        patternCount := patternCount[pattern[i] := GetOrDefault(patternCount, pattern[i], 0) + 1];
      }
    }
    assert pattern[..|pattern|] == pattern;
  }

  /**
    `isAnagramMatch`: counts the word's characters and the pattern's required
    characters in two maps, then walks the pattern's counts (in whatever order
    the map yields them), failing on the first character the word cannot
    cover and adding up the covered characters otherwise.
  */
  method IsAnagramMatch(word: string, pattern: string) returns (b: bool)
    ensures b == AnagramMatch(word, pattern)
  {
    var wordCount := CountWord(word);
    var patternCount, stars := CountPattern(pattern);
    var covered := 0;
    var pending := patternCount.Keys;
    ghost var counted: multiset<char> := multiset{};
    while pending != {}
      invariant pending <= patternCount.Keys
      invariant forall c :: c in patternCount && c !in pending ==> Required(pattern)[c] <= multiset(word)[c]
      invariant forall c :: counted[c] == if c in patternCount && c !in pending then patternCount[c] else 0
      invariant covered == |counted|
      decreases pending
    {
      var c :| c in pending;
      var needed := patternCount[c];
      var available := GetOrDefault(wordCount, c, 0);
      if available < needed {
        assert GetOrDefault(patternCount, c, 0) == Required(pattern)[c];
        return false;
      }
      CountedStep(patternCount, pending, counted, c);
      covered := covered + needed;
      counted := counted + Copies(c, needed);
      pending := pending - {c};
    }
    CountsCoverRequired(pattern, patternCount, counted, word);
    b := |word| - covered == stars;
  }

  /** Adding up the count of one more pending key `c` keeps the running total in step with the keys done. */
  lemma CountedStep(patternCount: map<char, int>, pending: set<char>, counted: multiset<char>, c: char)
    requires c in pending && pending <= patternCount.Keys && patternCount[c] > 0
    requires forall d :: counted[d] == if d in patternCount && d !in pending then patternCount[d] else 0
    ensures forall d :: (counted + Copies(c, patternCount[c]))[d]
                     == if d in patternCount && d !in pending - {c} then patternCount[d] else 0
    ensures |counted + Copies(c, patternCount[c])| == |counted| + patternCount[c]
  {
  }

  /**
    Once every key of the pattern's counts has been checked: the characters
    added up are exactly the required ones, and the word covers them all.
  */
  lemma CountsCoverRequired(pattern: string, patternCount: map<char, int>, counted: multiset<char>, word: string)
    requires forall c :: GetOrDefault(patternCount, c, 0) == Required(pattern)[c]
    requires forall c :: c in patternCount ==> Required(pattern)[c] <= multiset(word)[c]
    requires forall c :: counted[c] == if c in patternCount then patternCount[c] else 0
    ensures counted == Required(pattern) && Required(pattern) <= multiset(word)
  {
    forall c
      ensures counted[c] == Required(pattern)[c] && Required(pattern)[c] <= multiset(word)[c]
    {
      assert GetOrDefault(patternCount, c, 0) == Required(pattern)[c];
    }
  }

  /** For equal lengths, a positional match is also an anagram match. */
  lemma {:induction false} ExactMatchImpliesAnagramMatch(word: string, pattern: string)
    requires |word| == |pattern| && ExactMatch(word, pattern)
    ensures AnagramMatch(word, pattern)
  {
    RequiredAndStarsCover(pattern);
    if word != [] {
      var n := |word| - 1;
      assert ExactMatch(word[..n], pattern[..n]) by {
        forall i | 0 <= i < n
          ensures pattern[..n][i] == WILDCARD || pattern[..n][i] == word[..n][i]
        {
          assert pattern[i] == WILDCARD || pattern[i] == word[i];
        }
      }
      ExactMatchImpliesAnagramMatch(word[..n], pattern[..n]);
      assert word == word[..n] + [word[n]];
      assert multiset(word) == multiset(word[..n]) + multiset{word[n]};
    }
  }

  /** For equal lengths, the wildcard count of an anagram match always balances. */
  lemma {:induction false} AnagramMatchIffIncluded(word: string, pattern: string)
    requires |word| == |pattern|
    ensures AnagramMatch(word, pattern) <==> Required(pattern) <= multiset(word)
  {
    RequiredAndStarsCover(pattern);
  }

  /**
    The early positional test never changes the matcher's answer: a word
    matches a fragment exactly when the lengths agree and the fragment's
    required characters are a sub-multiset of the word's.
  */
  lemma {:induction false} WordMatchIffIncluded(word: string, fragment: string)
    ensures WordMatch(word, fragment) <==> |word| == |fragment| && Required(fragment) <= multiset(word)
  {
    if |word| == |fragment| {
      AnagramMatchIffIncluded(word, fragment);
      if ExactMatch(word, fragment) {
        ExactMatchImpliesAnagramMatch(word, fragment);
      }
    }
  }

  /** `isWordMatch`: the length gate, then the positional test, then the anagram test. */
  method IsWordMatch(word: string, fragment: string) returns (b: bool)
    ensures b == WordMatch(word, fragment)
    ensures b ==> |word| == |fragment|
  {
    if |word| != |fragment| {
      return false;
    }
    var exact := IsExactMatch(word, fragment);
    if exact {
      return true;
    }
    b := IsAnagramMatch(word, fragment);
  }
}
