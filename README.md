# SmartTextRestorer, modelled in Dafny

SmartTextRestorer rebuilds a damaged English sentence. The input is lowercase text in which some letters are replaced by `*` and word boundaries are lost. The program cuts the text into consecutive fragments of 1 to 15 characters. Each fragment must be produced by a dictionary word, and the split with the highest score wins.

The model covers:

- **The fragment matcher** (`FragmentMatcher`). A word produces a fragment of the same length in one of two ways:
  - positionally, where `*` stands for any character;
  - as an anagram, where the fragment's named characters must be available in the word and the `*` positions make up the rest.
- **Candidate lookup** (`Candidates`). The dictionary keys the matcher accepts, stably sorted by length and then by weight, both descending.
- **The word and bigram tables** (`Lexicons`), including `addBigram`'s in-place update of the bigram table.
- **The scored search** (`Segmentation`, `Restorer`).
  - `Segmentation.Best` is a pure recursive specification of what `dfsWithScore` keeps for a suffix and a previous word.
  - `Restorer.MemoSearch` is the memoised search as an imperative class with a `memo` map field. Its `DfsWithScore` method is proved equal to that specification on every call, whether the memo hits or misses.
  - The specification itself is proved to find a split exactly when one exists, to find one of maximal score, and to keep the first maximum in its enumeration order.
- **`restore`**, which runs the search from position 0 with no previous word and trims the sentence.

The dictionary and the bigram table are inputs (`Lexicons.Lexicon`). Java's `HashMap.keySet()` order is not under the program's control, so the model makes it an explicit part of the lexicon: `keyOrder` lists every dictionary key once. Every claim about the candidate order, and so about which of several equally scored restorations wins, is relative to that order. The claims that do not depend on it are stated without it: a restoration exists, it is a split, and its score is maximal.

Dictionary keys are arbitrary strings. The dictionary loader can store keys that contain `:`, spaces or other non-letters, and even the empty key (`src/main/java/org/example/DictionaryData.java:19-25`). So keys need not be lowercase letters. Restoring a text that is exactly one dictionary word need not return that word either. The search keeps the highest-scoring split, and a split into shorter words, or another word of higher weight that matches the same text as an anagram, can score more. The model claims only that the kept split is optimal.

## Model

| member | source | states |
|---|---|---|
| FragmentMatcher.IsExactMatch | src/main/java/org/example/SmartTextRestorer.java:132-140 | `isExactMatch` is true iff every position of the word is a `*` or the same character in the pattern |
| FragmentMatcher.CountWord | src/main/java/org/example/SmartTextRestorer.java:147-149 | the word's count map holds, for every character, its number of occurrences in the word |
| FragmentMatcher.CountPattern | src/main/java/org/example/SmartTextRestorer.java:151-157 | `stars` is the number of `*` in the pattern; the pattern's count map holds every other character's occurrences, and only positive counts |
| FragmentMatcher.IsAnagramMatch | src/main/java/org/example/SmartTextRestorer.java:142-170 | `isAnagramMatch` is true iff the word holds every non-`*` pattern character at least as often as the pattern, and the word's uncovered characters number exactly the stars; this holds whatever order the count map is walked in |
| FragmentMatcher.CountedStep | src/main/java/org/example/SmartTextRestorer.java:160-167 | adding one more entry's `needed` to `covered` keeps `covered` equal to the characters of the entries checked so far |
| FragmentMatcher.CountsCoverRequired | src/main/java/org/example/SmartTextRestorer.java:159-169 | once the loop checks every entry without failing, the covered characters are exactly the pattern's non-`*` characters, and the word holds all of them |
| FragmentMatcher.RequiredAndStarsCover | src/main/java/org/example/SmartTextRestorer.java:151-157 | each pattern position is either a star or a required character, and `*` is never required |
| FragmentMatcher.ExactMatchImpliesAnagramMatch | src/main/java/org/example/SmartTextRestorer.java:126-129 | for equal lengths, a positional match is also an anagram match |
| FragmentMatcher.AnagramMatchIffIncluded | src/main/java/org/example/SmartTextRestorer.java:169 | for equal lengths, the star balance at the end always holds, so the anagram test is multiset inclusion of the named characters |
| FragmentMatcher.WordMatchIffIncluded | src/main/java/org/example/SmartTextRestorer.java:126-130 | the early exact-match return never changes the answer: a word matches iff the lengths agree and the fragment's named characters are a sub-multiset of the word's |
| FragmentMatcher.IsWordMatch | src/main/java/org/example/SmartTextRestorer.java:126-130 | `isWordMatch` computes the matcher predicate and is false whenever the lengths differ |
| Lexicons.BigramScore | src/main/java/org/example/SmartTextRestorer.java:172-175 | 0 for an empty predecessor or an absent pair, else the stored weight of the pair |
| Lexicons.BigramScoreAfterAdd | src/main/java/org/example/SmartTextRestorer.java:172-179 | after storing (w1, w2, s), the lookup of (w1, w2) with non-empty w1 yields s and every other lookup is unchanged |
| Lexicons.BigramModel.constructor | src/main/java/org/example/SmartTextRestorer.java:19 | the bigram table starts empty |
| Lexicons.BigramModel.AddBigram | src/main/java/org/example/SmartTextRestorer.java:177-179 | `addBigram` creates the inner map of w1 when absent and stores the score; the lookups change exactly as the lemma above states |
| Candidates.Filter | src/main/java/org/example/SmartTextRestorer.java:110-115 | the kept keys are exactly the keys the matcher accepts, without repetition when the keys are distinct |
| Candidates.Insert | src/main/java/org/example/SmartTextRestorer.java:117-121 | inserting a word adds exactly that word to the list's contents |
| Candidates.InsertKeepsOrder | src/main/java/org/example/SmartTextRestorer.java:117-121 | inserting into a list ordered by the comparator keeps it ordered |
| Candidates.InsertKeepsDistinct | src/main/java/org/example/SmartTextRestorer.java:117-121 | inserting a new word into a list without repetition keeps it without repetition |
| Candidates.DistinctParts | src/main/java/org/example/SmartTextRestorer.java:117-121 | a list with a head has no repetition iff its tail has none and does not hold the head |
| Candidates.SortByRank | src/main/java/org/example/SmartTextRestorer.java:117-121 | the sort result is a permutation of its input, ordered by length and then weight (both descending), without repetition when the input has none |
| Candidates.InsertKeepsRankOrder | src/main/java/org/example/SmartTextRestorer.java:117-121 | inserting a word into a sorted list puts it behind every element of its own length and weight, and keeps their order |
| Candidates.SortByRankIsStable | src/main/java/org/example/SmartTextRestorer.java:117-121 | the sort is stable: the words of any one length and weight come out in the order they went in |
| Candidates.RankedKeepsMatches | src/main/java/org/example/SmartTextRestorer.java:109-124 | the candidate list holds exactly the matching keys, once each, ordered by the comparator |
| Candidates.InsertedMembers | src/main/java/org/example/SmartTextRestorer.java:117-121 | a word is in the list after an insertion iff it is the inserted word or was already there |
| Candidates.RankedIsSortedFilter | src/main/java/org/example/SmartTextRestorer.java:109-124 | filtering the keys and then sorting gives the same list as inserting each matching key in enumeration order |
| Candidates.MatchingWordsAreCandidates | src/main/java/org/example/SmartTextRestorer.java:109-127 | `getMatchingWords` returns exactly the dictionary keys the matcher accepts, each once, all as long as the fragment, in non-increasing weight order |
| Candidates.SameLengthSortedByWeight | src/main/java/org/example/SmartTextRestorer.java:117-121 | among words of one length the comparator orders by weight alone |
| Candidates.GetMatchingWords | src/main/java/org/example/SmartTextRestorer.java:109-124 | the filtering loop followed by the sort returns the candidate list of the specification |
| Segmentation.SplitCoversSuffix | src/main/java/org/example/SmartTextRestorer.java:85-90 | the words of a split have lengths 1 to 15 that add up to the suffix's length |
| Segmentation.JoinedStartsWithFirst | src/main/java/org/example/SmartTextRestorer.java:98 | a sentence of words is at least as long as its first word |
| Segmentation.JoinedCons | src/main/java/org/example/SmartTextRestorer.java:98 | a candidate, plus a space only when the suffix's sentence is non-empty, plus that sentence, is the words joined by single spaces |
| Segmentation.FoldKeepsFirstMaximum | src/main/java/org/example/SmartTextRestorer.java:97-100 | a strict `>` selection keeps the start when nothing beats it, and otherwise ends on the first option of highest score |
| Segmentation.FoldConcat | src/main/java/org/example/SmartTextRestorer.java:85-103 | selecting over two runs of options in a row is the second run resumed from the first one's outcome |
| Segmentation.OptionsFoldStep | src/main/java/org/example/SmartTextRestorer.java:85-87 | one pass of the length loop tries the candidates of that length, then goes on with shorter lengths |
| Segmentation.CandidateOptionsFoldStep | src/main/java/org/example/SmartTextRestorer.java:89-101 | one pass of the candidate loop tries one candidate, then the candidates after it |
| Segmentation.BestSound | src/main/java/org/example/SmartTextRestorer.java:77-107 | whatever the search keeps is a split of the suffix, and its score is that split's total of weight + 5·length + bigram per word |
| Segmentation.OptionsSound | src/main/java/org/example/SmartTextRestorer.java:85-103 | every option the length loop offers is a split of the suffix, scored by its words |
| Segmentation.CandidateOptionsSound | src/main/java/org/example/SmartTextRestorer.java:89-101 | every option the candidate loop offers is a split of the suffix, scored by its words |
| Segmentation.OptionsIncludeLength | src/main/java/org/example/SmartTextRestorer.java:85 | the options for every length from the longest down to 1 are all tried |
| Segmentation.CandidateOptionsContain | src/main/java/org/example/SmartTextRestorer.java:89 | the option of every candidate in the list is tried |
| Segmentation.WordChoiceIsOption | src/main/java/org/example/SmartTextRestorer.java:85-95 | any matching dictionary word of 1 to 15 characters, followed by the best restoration of the rest, is among the options tried |
| Segmentation.BestComplete | src/main/java/org/example/SmartTextRestorer.java:77-107 | for every split of the suffix the search finds a result, and its score is at least that split's |
| Segmentation.BestIsOptimal | src/main/java/org/example/SmartTextRestorer.java:77-107 | the search finds nothing iff the suffix has no split; otherwise it keeps a split whose score no split exceeds |
| Segmentation.BestIsFirstMaximum | src/main/java/org/example/SmartTextRestorer.java:85-100 | the search keeps the first option of highest score in enumeration order (longer fragments first, then candidate order), and nothing iff there is no option |
| Restorer.TrimStart | src/main/java/org/example/SmartTextRestorer.java:64 | removes exactly the leading characters up to the space |
| Restorer.TrimEnd | src/main/java/org/example/SmartTextRestorer.java:64 | removes exactly the trailing characters up to the space |
| Restorer.Trim | src/main/java/org/example/SmartTextRestorer.java:64 | `String.trim` gives a slice cut from blanks only, which neither starts nor ends with a blank |
| Restorer.TrimSlice | src/main/java/org/example/SmartTextRestorer.java:64 | cutting leading blanks and then trailing blanks leaves a slice cut from blanks only, with no blank at either end |
| Restorer.TrimJoinedIsIdentity | src/main/java/org/example/SmartTextRestorer.java:64 | trimming a sentence whose words neither start nor end with a blank leaves it unchanged |
| Restorer.JoinedEnds | src/main/java/org/example/SmartTextRestorer.java:98 | such a sentence starts with its first word's first character and ends with its last word's last character |
| Restorer.MemoSearch.constructor | src/main/java/org/example/SmartTextRestorer.java:62 | the memo starts empty, so every entry trivially agrees with the specification |
| Restorer.MemoSearch.DfsWithScore | src/main/java/org/example/SmartTextRestorer.java:77-107 | returns the specification's result for (index, prevWord), on a memo hit (including a cached null) as on a fresh computation; stores it; keeps every memo entry equal to the specification and never drops one |
| Restorer.MemoSearch.TryCandidates | src/main/java/org/example/SmartTextRestorer.java:89-102 | the candidate loop ends on the specification's selection over that length's candidates, resumed from the running best |
| Restorer.CandidateStep | src/main/java/org/example/SmartTextRestorer.java:90-100 | one candidate replaces the running best exactly when the suffix is solvable and the total is strictly higher, with the sentence built as the code builds it |
| Restorer.RestIsNonEmptyWords | src/main/java/org/example/SmartTextRestorer.java:85 | the words of a kept restoration are non-empty |
| Restorer.SearchResultShape | src/main/java/org/example/SmartTextRestorer.java:77-107 | ("", 0) at the end of the text; null iff the suffix has no split; otherwise a split's words joined by single spaces, with lengths adding up to the suffix's length and with that split's score, which is maximal |
| Restorer.RestoredIsOptimal | src/main/java/org/example/SmartTextRestorer.java:61-65 | `restore` gives up iff the text has no split, else returns the trimmed sentence of a split of maximal score |
| Restorer.Restore | src/main/java/org/example/SmartTextRestorer.java:61-65 | runs the search on a fresh memo from position 0 with no previous word; null iff no split exists, else the trimmed sentence of a split of maximal score |

## Left out

- `main` (`SmartTextRestorer.java:21-53`): the console loop, the `exit` command, lowercasing the input and `capitalizeFirst` (:198-201) are I/O and output formatting around `restore`.
- `isValidInput` (:55-59) depends on Java's regex engine. It is validation outside the search: `Restore` accepts any text.
- `loadBigramModelFromFile` (:181-196) does file I/O and relies on `String.split` and `Integer.parseInt`. The bigram table is an input, and it can be built with `BigramModel.AddBigram`.
- `DictionaryData` (loading `dictionary.txt`) is not part of this model. The dictionary is an input map with arbitrary string keys.
- `Pair` and its `equals` (:203-211): the memo key is a Dafny pair `(nat, string)` with value equality.
- The static global maps `dictionary` and `bigramMap` are passed to the search explicitly, as the immutable `Lexicon`.
- `HashMap` iteration order over the dictionary is an explicit input (`keyOrder`).
- The iteration order of `patternCount.entrySet()` is left arbitrary: `IsAnagramMatch` picks each next key with `:|`, so its contract holds for every walk order.
- Strings are modelled as sequences of Unicode code points, while Java measures them in UTF-16 code units (`length()`, `charAt`, `toCharArray`). A key or text with a character outside the Basic Multilingual Plane therefore has a different length in the model than in the code. The length gate, the positional match, the 5-point length bonus and the 15-character cap then differ for it. Text that has passed `isValidInput` is ASCII, so this only affects such dictionary keys.
- `List.sort` on the `ArrayList` is modelled as a stable insertion sort on a sequence value, not as Java's TimSort in place. `Candidates.SortByRankIsStable` proves it stable, and any stable sort with this comparator gives the same list.
- `Restorer.MemoSearch.DfsWithScore` does not model 32-bit `int` wrap-around in the score sums (:92-95): scores are unbounded integers, and the optimality claims assume no sum overflows.
- `Restorer.MemoSearch.TryCandidates` is the inner `for` loop of `dfsWithScore` (:89-102) written as a separate method of its own. Otherwise it is the same loop over the same state.
- `FragmentMatcher.IsExactMatch` requires the pattern to be at least as long as the word. With a shorter pattern the code reads `pattern.charAt(i)` until a mismatch returns false, and throws once `i` reaches the pattern's length. Its only caller has already checked that the lengths are equal (:127).
- `Restorer.Trim` models `String.trim` by its rule alone: strip characters up to U+0020 from both ends.
