/**
  Candidate lookup: the dictionary words that can produce a fragment, in the
  order the search tries them (longer first, then heavier first).
*/
module Candidates {
  import opened Collections
  import opened FragmentMatcher
  import opened Lexicons

  /** The keys of `keys`, in their order, that can produce `fragment`. */
  function Filter(keys: seq<string>, fragment: string): (r: seq<string>)
    ensures forall w :: w in r <==> w in keys && WordMatch(w, fragment)
    ensures NoDuplicates(keys) ==> NoDuplicates(r)
  {
    if keys == [] then []
    else
      var last := keys[|keys| - 1];
      assert NoDuplicates(keys) ==> NoDuplicates(keys[..|keys| - 1]) && last !in keys[..|keys| - 1];
      assert keys == keys[..|keys| - 1] + [last];
      Filter(keys[..|keys| - 1], fragment) + (if WordMatch(last, fragment) then [last] else [])
  }

  /**
    The comparator of `getMatchingWords` says `a` may stay ahead of `b`: `a` is
    longer, or as long and at least as heavy (an absent weight counts as 0).
  */
  predicate NoLaterThan(weights: map<string, int>, a: string, b: string)
  {
    || |a| > |b|
    || (|a| == |b| && GetOrDefault(weights, a, 0) >= GetOrDefault(weights, b, 0))
  }

  /** The comparator says `a` must come before `b`. */
  predicate StrictlyBefore(weights: map<string, int>, a: string, b: string)
  {
    || |a| > |b|
    || (|a| == |b| && GetOrDefault(weights, a, 0) > GetOrDefault(weights, b, 0))
  }

  predicate Sorted(weights: map<string, int>, s: seq<string>)
  {
    forall i, j :: 0 <= i < j < |s| ==> NoLaterThan(weights, s[i], s[j])
  }

  /** Inserts `x` behind every element it does not strictly precede (which keeps a sort stable). */
  function Insert(weights: map<string, int>, sorted: seq<string>, x: string): (r: seq<string>)
    ensures multiset(r) == multiset(sorted) + multiset{x}
  {
    if sorted == [] then [x]
    else if StrictlyBefore(weights, x, sorted[0]) then [x] + sorted
    else
      assert sorted == [sorted[0]] + sorted[1..];
      [sorted[0]] + Insert(weights, sorted[1..], x)
  }

  lemma {:induction false} InsertKeepsOrder(weights: map<string, int>, sorted: seq<string>, x: string)
    requires Sorted(weights, sorted)
    ensures Sorted(weights, Insert(weights, sorted, x))
  {
    if sorted == [] {
    } else if StrictlyBefore(weights, x, sorted[0]) {
      var r := [x] + sorted;
      forall i, j | 0 <= i < j < |r|
        ensures NoLaterThan(weights, r[i], r[j])
      {
        if i == 0 && j > 1 {
          assert NoLaterThan(weights, sorted[0], sorted[j - 1]);
        }
      }
    } else {
      var tail := sorted[1..];
      assert Sorted(weights, tail) by {
        forall i, j | 0 <= i < j < |tail|
          ensures NoLaterThan(weights, tail[i], tail[j])
        {
          assert tail[i] == sorted[i + 1] && tail[j] == sorted[j + 1];
        }
      }
      InsertKeepsOrder(weights, tail, x);
      var rest := Insert(weights, tail, x);
      var r := [sorted[0]] + rest;
      forall i, j | 0 <= i < j < |r|
        ensures NoLaterThan(weights, r[i], r[j])
      {
        if i == 0 {
          var y := rest[j - 1];
          assert y in multiset(rest);
          if y != x {
            var k :| 0 <= k < |tail| && tail[k] == y;
            assert sorted[k + 1] == y;
          }
        } else {
          assert r[i] == rest[i - 1] && r[j] == rest[j - 1];
        }
      }
    }
  }

  lemma {:induction false} InsertKeepsDistinct(weights: map<string, int>, sorted: seq<string>, x: string)
    ensures NoDuplicates(sorted) && x !in sorted ==> NoDuplicates(Insert(weights, sorted, x))
  {
    if NoDuplicates(sorted) && x !in sorted && sorted != [] {
      var tail := sorted[1..];
      assert sorted == [sorted[0]] + tail;
      DistinctParts(sorted[0], tail);
      if !StrictlyBefore(weights, x, sorted[0]) {
        InsertKeepsDistinct(weights, tail, x);
        InsertedMembers(weights, tail, x);
        DistinctParts(sorted[0], Insert(weights, tail, x));
      } else {
        DistinctParts(x, sorted);
      }
    }
  }

  /** A list with a head is without repetition exactly when its tail is and does not hold the head. */
  lemma DistinctParts(y: string, s: seq<string>)
    ensures NoDuplicates([y] + s) <==> NoDuplicates(s) && y !in s
  {
    var r := [y] + s;
    if NoDuplicates(r) {
      forall i, j | 0 <= i < j < |s|
        ensures s[i] != s[j]
      {
        assert s[i] == r[i + 1] && s[j] == r[j + 1];
      }
      forall k | 0 <= k < |s|
        ensures s[k] != y
      {
        assert r[k + 1] == s[k] && r[0] == y;
      }
    }
    if NoDuplicates(s) && y !in s {
      forall i, j | 0 <= i < j < |r|
        ensures r[i] != r[j]
      {
        assert r[j] == s[j - 1];
        if i > 0 {
          assert r[i] == s[i - 1];
        }
      }
    }
  }

  /** `List.sort` with the comparator of `getMatchingWords`: a stable sort by rank. */
  function SortByRank(weights: map<string, int>, s: seq<string>): (r: seq<string>)
    ensures multiset(r) == multiset(s)
    ensures Sorted(weights, r)
    ensures NoDuplicates(s) ==> NoDuplicates(r)
  {
    if s == [] then []
    else
      var last := s[|s| - 1];
      var init := s[..|s| - 1];
      assert s == init + [last];
      assert NoDuplicates(s) ==> NoDuplicates(init) && last !in init;
      var sortedInit := SortByRank(weights, init);
      assert last in sortedInit ==> last in multiset(init);
      InsertKeepsOrder(weights, sortedInit, last);
      InsertKeepsDistinct(weights, sortedInit, last);
      Insert(weights, sortedInit, last)
  }

  /** `[y]` when `y` has length `n` and weight `w` (an absent weight counts as 0), else nothing. */
  function OfRankOne(weights: map<string, int>, y: string, n: nat, w: int): seq<string>
  {
    if |y| == n && GetOrDefault(weights, y, 0) == w then [y] else []
  }

  /** The elements of `s` of length `n` and weight `w`, in their order in `s`. */
  function OfRank(weights: map<string, int>, s: seq<string>, n: nat, w: int): seq<string>
  {
    if s == [] then [] else OfRankOne(weights, s[0], n, w) + OfRank(weights, s[1..], n, w)
  }

  lemma OfRankCons(weights: map<string, int>, y: string, s: seq<string>, n: nat, w: int)
    ensures OfRank(weights, [y] + s, n, w) == OfRankOne(weights, y, n, w) + OfRank(weights, s, n, w)
  {
    assert ([y] + s)[0] == y && ([y] + s)[1..] == s;
  }

  lemma {:induction false} OfRankConcat(weights: map<string, int>, a: seq<string>, b: seq<string>, n: nat, w: int)
    ensures OfRank(weights, a + b, n, w) == OfRank(weights, a, n, w) + OfRank(weights, b, n, w)
    decreases |a|
  {
    if a == [] {
      assert a + b == b;
    } else {
      assert a + b == [a[0]] + (a[1..] + b);
      assert a == [a[0]] + a[1..];
      OfRankCons(weights, a[0], a[1..] + b, n, w);
      OfRankCons(weights, a[0], a[1..], n, w);
      OfRankConcat(weights, a[1..], b, n, w);
    }
  }

  /** A list holding no element of length `n` and weight `w` has none of that rank to give. */
  lemma {:induction false} NoneOfRank(weights: map<string, int>, s: seq<string>, n: nat, w: int)
    requires forall y :: y in s ==> OfRankOne(weights, y, n, w) == []
    ensures OfRank(weights, s, n, w) == []
    decreases |s|
  {
    if s != [] {
      assert s[0] in s;
      assert forall y :: y in s[1..] ==> y in s;
      NoneOfRank(weights, s[1..], n, w);
    }
  }

  /** Every element of a sorted list after a head that `x` strictly precedes is of a rank other than `x`'s. */
  lemma BelowRank(weights: map<string, int>, sorted: seq<string>, x: string, n: nat, w: int)
    requires Sorted(weights, sorted) && sorted != [] && StrictlyBefore(weights, x, sorted[0])
    requires OfRankOne(weights, x, n, w) != []
    ensures forall y :: y in sorted ==> OfRankOne(weights, y, n, w) == []
  {
    forall y | y in sorted
      ensures OfRankOne(weights, y, n, w) == []
    {
      var k :| 0 <= k < |sorted| && sorted[k] == y;
      if k > 0 {
        assert NoLaterThan(weights, sorted[0], sorted[k]);
      }
    }
  }

  /** The tail of a sorted list is sorted. */
  lemma SortedTail(weights: map<string, int>, sorted: seq<string>)
    requires Sorted(weights, sorted) && sorted != []
    ensures Sorted(weights, sorted[1..])
  {
    var tail := sorted[1..];
    forall i, j | 0 <= i < j < |tail|
      ensures NoLaterThan(weights, tail[i], tail[j])
    {
      assert tail[i] == sorted[i + 1] && tail[j] == sorted[j + 1];
    }
  }

  /** Putting `x` ahead of a sorted list whose head it strictly precedes puts it behind every element of its rank, of which there are none. */
  lemma OfRankAhead(weights: map<string, int>, sorted: seq<string>, x: string, n: nat, w: int)
    requires Sorted(weights, sorted) && sorted != [] && StrictlyBefore(weights, x, sorted[0])
    ensures OfRank(weights, [x] + sorted, n, w) == OfRank(weights, sorted, n, w) + OfRankOne(weights, x, n, w)
  {
    OfRankCons(weights, x, sorted, n, w);
    var mine := OfRankOne(weights, x, n, w);
    var others := OfRank(weights, sorted, n, w);
    if mine == [] {
      assert mine + others == others + mine;
    } else {
      assert others == [] by {
        BelowRank(weights, sorted, x, n, w);
        NoneOfRank(weights, sorted, n, w);
      }
      assert mine + others == others + mine;
    }
  }

  lemma ConcatAssociates(a: seq<string>, b: seq<string>, c: seq<string>)
    ensures a + (b + c) == (a + b) + c
  {
  }

  /** Inserting `x` into a sorted list puts it behind every element of its own rank. */
  lemma {:induction false} InsertKeepsRankOrder(weights: map<string, int>, sorted: seq<string>, x: string, n: nat, w: int)
    requires Sorted(weights, sorted)
    ensures OfRank(weights, Insert(weights, sorted, x), n, w)
         == OfRank(weights, sorted, n, w) + OfRankOne(weights, x, n, w)
    decreases |sorted|
  {
    if sorted == [] || StrictlyBefore(weights, x, sorted[0]) {
      InsertAheadKeepsRankOrder(weights, sorted, x, n, w);
    } else {
      SortedTail(weights, sorted);
      InsertKeepsRankOrder(weights, sorted[1..], x, n, w);
      InsertBehindKeepsRankOrder(weights, sorted, x, n, w);
    }
  }

  /** When `x` goes in front, it is the last of its rank, since nothing after it shares its rank. */
  lemma InsertAheadKeepsRankOrder(weights: map<string, int>, sorted: seq<string>, x: string, n: nat, w: int)
    requires Sorted(weights, sorted)
    requires sorted == [] || StrictlyBefore(weights, x, sorted[0])
    ensures OfRank(weights, Insert(weights, sorted, x), n, w)
         == OfRank(weights, sorted, n, w) + OfRankOne(weights, x, n, w)
  {
    assert Insert(weights, sorted, x) == [x] + sorted;
    if sorted == [] {
      OfRankCons(weights, x, sorted, n, w);
    } else {
      OfRankAhead(weights, sorted, x, n, w);
    }
  }

  /** When `x` goes behind the head, the head keeps its place among the elements of its rank. */
  lemma InsertBehindKeepsRankOrder(weights: map<string, int>, sorted: seq<string>, x: string, n: nat, w: int)
    requires sorted != [] && !StrictlyBefore(weights, x, sorted[0])
    requires OfRank(weights, Insert(weights, sorted[1..], x), n, w) == OfRank(weights, sorted[1..], n, w) + OfRankOne(weights, x, n, w)
    ensures OfRank(weights, Insert(weights, sorted, x), n, w)
         == OfRank(weights, sorted, n, w) + OfRankOne(weights, x, n, w)
  {
    var tail := sorted[1..];
    var rest := Insert(weights, tail, x);
    var r := Insert(weights, sorted, x);
    assert r == [sorted[0]] + rest;
    assert r[0] == sorted[0] && r[1..] == rest;
    assert OfRank(weights, r, n, w) == OfRankOne(weights, sorted[0], n, w) + OfRank(weights, rest, n, w);
    assert OfRank(weights, sorted, n, w) == OfRankOne(weights, sorted[0], n, w) + OfRank(weights, tail, n, w);
    ConcatAssociates(OfRankOne(weights, sorted[0], n, w), OfRank(weights, tail, n, w), OfRankOne(weights, x, n, w));
  }

  /**
    The sort is stable: the words of any one length and weight come out in
    the order they went in.
  */
  lemma {:induction false} SortByRankIsStable(weights: map<string, int>, s: seq<string>, n: nat, w: int)
    ensures OfRank(weights, SortByRank(weights, s), n, w) == OfRank(weights, s, n, w)
    decreases |s|
  {
    if s != [] {
      var last := s[|s| - 1];
      var init := s[..|s| - 1];
      var sortedInit := SortByRank(weights, init);
      assert SortByRank(weights, s) == Insert(weights, sortedInit, last);
      SortByRankIsStable(weights, init, n, w);
      InsertKeepsRankOrder(weights, sortedInit, last, n, w);
      OfRankSnoc(weights, s, n, w);
    }
  }

  /** The rank-`(n, w)` elements of a non-empty list are those of all but its last element, then the last if it has that rank. */
  lemma OfRankSnoc(weights: map<string, int>, s: seq<string>, n: nat, w: int)
    requires s != []
    ensures OfRank(weights, s, n, w) == OfRank(weights, s[..|s| - 1], n, w) + OfRankOne(weights, s[|s| - 1], n, w)
  {
    var last := s[|s| - 1];
    assert s == s[..|s| - 1] + [last];
    OfRankConcat(weights, s[..|s| - 1], [last], n, w);
    OfRankCons(weights, last, [], n, w);
    assert [last] + [] == [last];
  }

  /**
    Filtering then sorting, one key at a time: the matching keys of `keys`
    inserted in enumeration order into a list kept sorted by rank.
  */
  function Ranked(weights: map<string, int>, keys: seq<string>, fragment: string): seq<string>
    decreases |keys|, 1
  {
    if keys == [] then [] else RankedStep(weights, keys, fragment)
  }

  /** The last key of `keys`, when the matcher accepts it, inserted into the ranked list of the others. */
  function RankedStep(weights: map<string, int>, keys: seq<string>, fragment: string): seq<string>
    requires keys != []
    decreases |keys|, 0
  {
    var rest := Ranked(weights, keys[..|keys| - 1], fragment);
    if WordMatch(keys[|keys| - 1], fragment) then Insert(weights, rest, keys[|keys| - 1]) else rest
  }

  /** The ranked list holds exactly the matching keys, each once when the keys are distinct, sorted by rank. */
  lemma {:induction false} RankedKeepsMatches(weights: map<string, int>, keys: seq<string>, fragment: string)
    ensures var r := Ranked(weights, keys, fragment);
      && (forall w :: w in r <==> w in keys && WordMatch(w, fragment))
      && (NoDuplicates(keys) ==> NoDuplicates(r))
      && Sorted(weights, r)
    decreases |keys|
  {
    if keys != [] {
      var last := keys[|keys| - 1];
      var init := keys[..|keys| - 1];
      RankedKeepsMatches(weights, init, fragment);
      assert keys == init + [last];
      assert NoDuplicates(keys) ==> NoDuplicates(init) && last !in init;
      var rest := Ranked(weights, init, fragment);
      assert Ranked(weights, keys, fragment) == RankedStep(weights, keys, fragment);
      if WordMatch(last, fragment) {
        InsertKeepsOrder(weights, rest, last);
        InsertKeepsDistinct(weights, rest, last);
        InsertedMembers(weights, rest, last);
      }
    }
  }

  lemma InsertedMembers(weights: map<string, int>, sorted: seq<string>, x: string)
    ensures forall w :: w in Insert(weights, sorted, x) <==> w == x || w in sorted
  {
    forall w
      ensures w in Insert(weights, sorted, x) <==> w == x || w in sorted
    {
      calc {
        w in Insert(weights, sorted, x);
        w in multiset(Insert(weights, sorted, x));
        w in multiset(sorted) + multiset{x};
      }
    }
  }

  /** Sorting the filtered keys is inserting the matching keys one at a time. */
  lemma {:induction false} RankedIsSortedFilter(weights: map<string, int>, keys: seq<string>, fragment: string)
    ensures Ranked(weights, keys, fragment) == SortByRank(weights, Filter(keys, fragment))
  {
    if keys != [] {
      var last := keys[|keys| - 1];
      var init := keys[..|keys| - 1];
      RankedIsSortedFilter(weights, init, fragment);
      var found := Filter(init, fragment);
      assert Ranked(weights, keys, fragment) == RankedStep(weights, keys, fragment);
      assert RankedStep(weights, keys, fragment)
          == if WordMatch(last, fragment) then Insert(weights, Ranked(weights, init, fragment), last)
             else Ranked(weights, init, fragment);
      if WordMatch(last, fragment) {
        var s := found + [last];
        assert Filter(keys, fragment) == s;
        assert s[..|s| - 1] == found && s[|s| - 1] == last;
        assert SortByRank(weights, s) == Insert(weights, SortByRank(weights, found), last);
      } else {
        assert Filter(keys, fragment) == found + [];
        assert found + [] == found;
      }
    }
  }

  /** The list `getMatchingWords(fragment)` returns. */
  function MatchingWords(lex: Lexicon, fragment: string): seq<string>
  {
    Ranked(lex.weights, lex.keyOrder, fragment)
  }

  /**
    The candidates for a fragment are exactly the dictionary keys the matcher
    accepts, each once, all as long as the fragment (so the length part of
    the comparator is always 0), in non-increasing weight order.
  */
  lemma MatchingWordsAreCandidates(lex: Lexicon, fragment: string)
    ensures var r := MatchingWords(lex, fragment);
      && (forall w :: w in r <==> w in lex.weights && WordMatch(w, fragment))
      && NoDuplicates(r)
      && (forall w :: w in r ==> |w| == |fragment|)
      && (forall i, j :: 0 <= i < j < |r| ==> GetOrDefault(lex.weights, r[i], 0) >= GetOrDefault(lex.weights, r[j], 0))
  {
    RankedKeepsMatches(lex.weights, lex.keyOrder, fragment);
    SameLengthSortedByWeight(lex.weights, MatchingWords(lex, fragment), |fragment|);
  }

  /** Among words of one length, the comparator orders by weight alone. */
  lemma SameLengthSortedByWeight(weights: map<string, int>, s: seq<string>, n: nat)
    requires Sorted(weights, s)
    requires forall w :: w in s ==> |w| == n
    ensures forall i, j :: 0 <= i < j < |s| ==> GetOrDefault(weights, s[i], 0) >= GetOrDefault(weights, s[j], 0)
  {
    forall i, j | 0 <= i < j < |s|
      ensures GetOrDefault(weights, s[i], 0) >= GetOrDefault(weights, s[j], 0)
    {
      assert NoLaterThan(weights, s[i], s[j]);
      assert |s[i]| == n && |s[j]| == n;
    }
  }

  /** `getMatchingWords`: filters the keys through the matcher, then sorts them. */
  method GetMatchingWords(lex: Lexicon, fragment: string) returns (candidates: seq<string>)
    ensures candidates == MatchingWords(lex, fragment)
  {
    var found: seq<string> := [];
    for i := 0 to |lex.keyOrder|
      invariant found == Filter(lex.keyOrder[..i], fragment)
    {
      var word := lex.keyOrder[i];
      assert lex.keyOrder[..i + 1][..i] == lex.keyOrder[..i];
      var matches := IsWordMatch(word, fragment);
      if matches {
        found := found + [word];
      }
    }
    assert lex.keyOrder[..|lex.keyOrder|] == lex.keyOrder;
    candidates := SortByRank(lex.weights, found);
    RankedIsSortedFilter(lex.weights, lex.keyOrder, fragment);
  }
}
