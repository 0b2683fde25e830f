/** The leaderboard builder: a word corpus and a letter-value table, two overridable
    settings, bounded ranked insertion, and the two build modes (the whole corpus, or
    only the words that can be spelt from a set of starting letters). */
module HighScoring {
  import opened Wrappers
  import opened StringOrder
  import opened Ranking
  import opened Letters
  import opened Scoring

  /** Why construction or a build fails: the three construction errors (a `ValueError`
      in `highscoringwords.py`) and a letter with no value in the table (a `KeyError`). */
  datatype Error =
    | EmptyWords
    | EmptyLetterValues
    | IncompleteLetterValues
    | MissingLetter(letter: char)

  const DefaultMaxLeaderboardLength: int := 100
  const DefaultMinWordLength: int := 3

  /** The construction checks: a non-empty corpus and a table with exactly 26 entries.
      Only the number of entries is checked, not which keys they have. */
  function Validate(validWords: seq<string>, letterValues: map<char, int>): (r: Option<Error>)
    ensures r.None? <==> |validWords| > 0 && |letterValues| == 26
    ensures r == Some(EmptyWords) <==> |validWords| == 0
    ensures r == Some(EmptyLetterValues) <==> |validWords| > 0 && |letterValues| == 0
    ensures r == Some(IncompleteLetterValues) <==>
      |validWords| > 0 && |letterValues| > 0 && |letterValues| != 26
  {
    if |validWords| == 0 then Some(EmptyWords)
    else if |letterValues| == 0 then Some(EmptyLetterValues)
    else if |letterValues| != 26 then Some(IncompleteLetterValues)
    else None
  }

  /** Which corpus words a build offers to the leaderboard. */
  datatype Mode = WholeCorpus | FromLetters(counts: map<char, int>)

  /** A word the build inserts: long enough and, in letters mode, feasible. */
  ghost predicate Eligible(word: string, mode: Mode, minLength: int)
  {
    |word| >= minLength && (mode.FromLetters? ==> Feasible(word, mode.counts))
  }

  /** Every eligible word of `words` can be scored. */
  ghost predicate PoolScorable(words: seq<string>, mode: Mode, minLength: int, table: map<char, int>)
  {
    forall i :: 0 <= i < |words| && Eligible(words[i], mode, minLength) ==> Scorable(words[i], table)
  }

  /** The eligible words of `words`, scored, in corpus order. */
  ghost function Pool(words: seq<string>, mode: Mode, minLength: int, table: map<char, int>): seq<ScoredWord>
    requires PoolScorable(words, mode, minLength, table)
  {
    if words == [] then []
    else
      var w := words[|words| - 1];
      Pool(words[..|words| - 1], mode, minLength, table)
        + (if Eligible(w, mode, minLength) then [ScoredWord(w, Score(w, table))] else [])
  }

  /** The pool holds each eligible word with its score, as often as the corpus holds the
      word, and nothing else. */
  lemma {:induction false} PoolMultiset(words: seq<string>, mode: Mode, minLength: int, table: map<char, int>)
    requires PoolScorable(words, mode, minLength, table)
    ensures forall x :: (multiset(Pool(words, mode, minLength, table))[x] ==
      if Eligible(x.word, mode, minLength) && Scorable(x.word, table) && x.value == Score(x.word, table)
      then multiset(words)[x.word] else 0)
  {
    if words != [] {
      var init, w := words[..|words| - 1], words[|words| - 1];
      assert words == init + [w];
      PoolMultiset(init, mode, minLength, table);
    }
  }

  /** The corpus order does not matter: corpora with the same words give the same leaderboard. */
  lemma LeaderboardOrderIndependent(words1: seq<string>, words2: seq<string>, mode: Mode, minLength: int,
                                    table: map<char, int>, cap: nat)
    requires cap >= 1 && multiset(words1) == multiset(words2)
    requires PoolScorable(words1, mode, minLength, table)
    ensures PoolScorable(words2, mode, minLength, table)
    ensures Board(Pool(words1, mode, minLength, table), cap) == Board(Pool(words2, mode, minLength, table), cap)
  {
    forall i | 0 <= i < |words2| && Eligible(words2[i], mode, minLength) ensures Scorable(words2[i], table) {
      assert words2[i] in multiset(words1);
      var k :| 0 <= k < |words1| && words1[k] == words2[i];
    }
    var p1, p2 := Pool(words1, mode, minLength, table), Pool(words2, mode, minLength, table);
    PoolMultiset(words1, mode, minLength, table);
    PoolMultiset(words2, mode, minLength, table);
    assert multiset(p1) == multiset(p2);
    RankedOrderIndependent(p1, p2);
    BoardIsTopRanked(p1, cap);
    BoardIsTopRanked(p2, cap);
  }

  /** Every leaderboard entry is an eligible corpus word with its score: long enough,
      feasible in letters mode, and scored by the table. */
  lemma LeaderboardEntriesEligible(words: seq<string>, mode: Mode, minLength: int, table: map<char, int>, cap: nat)
    requires cap >= 1 && PoolScorable(words, mode, minLength, table)
    ensures forall x :: x in Board(Pool(words, mode, minLength, table), cap) ==>
      x.word in words && Eligible(x.word, mode, minLength) && Scorable(x.word, table)
      && x.value == Score(x.word, table)
  {
    var pool := Pool(words, mode, minLength, table);
    BoardIsTopK(pool, cap);
    PoolMultiset(words, mode, minLength, table);
    forall x | x in Board(pool, cap)
      ensures x.word in words && Eligible(x.word, mode, minLength) && Scorable(x.word, table)
        && x.value == Score(x.word, table)
    {
      assert x in multiset(pool);
      assert x.word in multiset(words);
    }
  }

  /** In letters mode every leaderboard word uses each letter at most as often as the
      starting letters hold it. */
  lemma LettersLeaderboardSpellable(words: seq<string>, letters: string, minLength: int,
                                    table: map<char, int>, cap: nat)
    requires cap >= 1 && PoolScorable(words, FromLetters(Occurrences(letters)), minLength, table)
    ensures forall x :: x in Board(Pool(words, FromLetters(Occurrences(letters)), minLength, table), cap) ==>
      multiset(x.word) <= multiset(letters) && |x.word| >= minLength
  {
    LeaderboardEntriesEligible(words, FromLetters(Occurrences(letters)), minLength, table, cap);
    forall x | x in Board(Pool(words, FromLetters(Occurrences(letters)), minLength, table), cap)
      ensures multiset(x.word) <= multiset(letters)
    {
      FeasibleIffSubMultiset(x.word, letters);
    }
  }

  /** The `k`-th corpus word is the first eligible word that cannot be scored. */
  ghost predicate FirstUnscorable(words: seq<string>, k: nat, mode: Mode, minLength: int, table: map<char, int>)
  {
    && k < |words|
    && Eligible(words[k], mode, minLength)
    && !Scorable(words[k], table)
    && PoolScorable(words[..k], mode, minLength, table)
  }

  /** What a build returns: the leaderboard of the pool when every eligible word can be
      scored, and otherwise the missing-letter error of the first eligible word that
      cannot be, naming its first letter without a value. */
  ghost predicate IsBuildOutcome(r: Result<seq<ScoredWord>, Error>, words: seq<string>, mode: Mode,
                                 minLength: int, table: map<char, int>, cap: nat)
    requires cap >= 1
  {
    if PoolScorable(words, mode, minLength, table) then
      r == Success(Board(Pool(words, mode, minLength, table), cap))
    else
      exists k: nat :: FirstUnscorable(words, k, mode, minLength, table)
        && r == Failure(MissingLetter(words[k][MissingIndex(words[k], table)]))
  }

  /** A successful build is the top `cap` of the pool. */
  lemma BuildOutcomeIsTopK(r: Result<seq<ScoredWord>, Error>, words: seq<string>, mode: Mode,
                           minLength: int, table: map<char, int>, cap: nat)
    requires cap >= 1 && IsBuildOutcome(r, words, mode, minLength, table, cap) && r.Success?
    ensures PoolScorable(words, mode, minLength, table)
    ensures r.value == Take(Ranked(Pool(words, mode, minLength, table)), cap)
    ensures IsTopK(r.value, Pool(words, mode, minLength, table), cap)
  {
    BoardIsTopRanked(Pool(words, mode, minLength, table), cap);
    BoardIsTopK(Pool(words, mode, minLength, table), cap);
  }

  /** How the scorability of a corpus prefix grows by one word. */
  lemma PoolScorableStep(words: seq<string>, i: nat, mode: Mode, minLength: int, table: map<char, int>)
    requires i < |words| && PoolScorable(words[..i], mode, minLength, table)
    ensures PoolScorable(words[..i + 1], mode, minLength, table) <==>
      (Eligible(words[i], mode, minLength) ==> Scorable(words[i], table))
  {
    assert forall j :: 0 <= j < i ==> words[..i + 1][j] == words[..i][j];
    assert words[..i + 1][i] == words[i];
  }

  /** Appending a word to the corpus appends its entry to the pool when it is eligible. */
  lemma PoolSnoc(ws: seq<string>, w: string, mode: Mode, minLength: int, table: map<char, int>)
    requires PoolScorable(ws + [w], mode, minLength, table)
    ensures PoolScorable(ws, mode, minLength, table)
    ensures Eligible(w, mode, minLength) ==> Scorable(w, table)
    ensures Pool(ws + [w], mode, minLength, table) == Pool(ws, mode, minLength, table)
      + if Eligible(w, mode, minLength) then [ScoredWord(w, Score(w, table))] else []
  {
    assert (ws + [w])[..|ws|] == ws;
    assert (ws + [w])[|ws|] == w;
    assert forall j :: 0 <= j < |ws| ==> (ws + [w])[j] == ws[j];
  }

  /** How the board of a corpus prefix grows by one word. */
  lemma PoolStep(words: seq<string>, i: nat, mode: Mode, minLength: int, table: map<char, int>, cap: nat)
    requires cap >= 1 && i < |words|
    requires PoolScorable(words[..i + 1], mode, minLength, table)
    ensures PoolScorable(words[..i], mode, minLength, table)
    ensures Board(Pool(words[..i + 1], mode, minLength, table), cap) ==
      if Eligible(words[i], mode, minLength)
      then Offer(Board(Pool(words[..i], mode, minLength, table), cap), ScoredWord(words[i], Score(words[i], table)), cap)
      else Board(Pool(words[..i], mode, minLength, table), cap)
  {
    var w := words[i];
    assert words[..i + 1] == words[..i] + [w];
    PoolSnoc(words[..i], w, mode, minLength, table);
    var pool := Pool(words[..i], mode, minLength, table);
    if Eligible(w, mode, minLength) {
      var x := ScoredWord(w, Score(w, table));
      assert (pool + [x])[..|pool|] == pool;
    } else {
      assert pool + [] == pool;
    }
  }

  /** The list a build fills in place. */
  class Leaderboard {
    var entries: seq<ScoredWord>

    constructor ()
      ensures entries == []
    {
      entries := [];
    }
  }

  /** The builder: a corpus, a letter-value table, and the two settings, which callers
      may override before building. */
  class HighScoringWords {
    var maxLeaderboardLength: int
    var minWordLength: int
    const validWords: seq<string>
    const letterValues: map<char, int>

    /** A cap of zero would make the fast reject index an empty list. */
    ghost predicate Valid()
      reads this
    {
      maxLeaderboardLength >= 1
    }

    constructor (validWords: seq<string>, letterValues: map<char, int>)
      requires Validate(validWords, letterValues).None?
      ensures Valid()
      ensures this.validWords == validWords && this.letterValues == letterValues
      ensures maxLeaderboardLength == DefaultMaxLeaderboardLength && minWordLength == DefaultMinWordLength
    {
      this.validWords := validWords;
      this.letterValues := letterValues;
      maxLeaderboardLength := DefaultMaxLeaderboardLength;
      minWordLength := DefaultMinWordLength;
    }

    /** Construction with its checks: fails with the first check the arguments miss. */
    static method Create(validWords: seq<string>, letterValues: map<char, int>) returns (r: Result<HighScoringWords, Error>)
      ensures Validate(validWords, letterValues).Some? ==> r == Failure(Validate(validWords, letterValues).value)
      ensures Validate(validWords, letterValues).None? ==>
        && r.Success? && fresh(r.value) && r.value.Valid()
        && r.value.validWords == validWords && r.value.letterValues == letterValues
        && r.value.maxLeaderboardLength == DefaultMaxLeaderboardLength
        && r.value.minWordLength == DefaultMinWordLength
    {
      if |validWords| == 0 {
        return Failure(EmptyWords);
      }
      if |letterValues| == 0 {
        return Failure(EmptyLetterValues);
      }
      if |letterValues| != 26 {
        return Failure(IncompleteLetterValues);
      }
      var words := new HighScoringWords(validWords, letterValues);
      return Success(words);
    }

    /** Sums the letter values of `word`, failing at its first letter without a value. */
    method CalculateScore(word: string) returns (r: Result<int, Error>)
      ensures r.Success? <==> Scorable(word, letterValues)
      ensures r.Success? ==> r.value == Score(word, letterValues)
      ensures r.Failure? ==> r.error == MissingLetter(word[MissingIndex(word, letterValues)])
    {
      var score := 0;
      for i := 0 to |word|
        invariant Scorable(word[..i], letterValues)
        invariant score == Score(word[..i], letterValues)
      {
        var c := word[i];
        if c !in letterValues {
          assert MissingIndex(word, letterValues) == i;
          return Failure(MissingLetter(c));
        }
        assert word[..i + 1][..i] == word[..i];
        score := score + letterValues[c];
      }
      assert word[..|word|] == word;
      return Success(score);
    }

    /** Offers `word` to a sorted `board`: skips a word that is too short, scores it, skips
        it when the board is full and the score is strictly below the last entry, and
        otherwise inserts it at the position found by a binary search on the values and a
        walk back past equal-valued entries with greater words, then drops the last entry
        if the board has outgrown the cap. */
    method AddToLeaderboard(board: Leaderboard, word: string) returns (outcome: Outcome<Error>)
      requires Valid()
      requires Sorted(board.entries) && |board.entries| <= maxLeaderboardLength
      modifies board
      ensures Sorted(board.entries) && |board.entries| <= maxLeaderboardLength
      ensures |word| < minWordLength ==> outcome.Pass? && board.entries == old(board.entries)
      ensures |word| >= minWordLength && !Scorable(word, letterValues) ==>
        && outcome == Fail(MissingLetter(word[MissingIndex(word, letterValues)]))
        && board.entries == old(board.entries)
      ensures |word| >= minWordLength && Scorable(word, letterValues) ==>
        && outcome.Pass?
        && board.entries == Offer(old(board.entries), ScoredWord(word, Score(word, letterValues)), maxLeaderboardLength)
    {
      if |word| < minWordLength {
        return Pass;
      }
      var s := board.entries;
      var result := CalculateScore(word);
      if result.Failure? {
        return Fail(result.error);
      }
      var score := result.value;
      if |s| == maxLeaderboardLength && score < s[|s| - 1].value {
        assert Offer(s, ScoredWord(word, score), maxLeaderboardLength) == s;
        return Pass;
      }
      var x := ScoredWord(word, score);
      var index := InsertionIndex(s, x);
      OfferAdmitted(s, x, maxLeaderboardLength, index);
      OfferKeepsInvariant(s, x, maxLeaderboardLength);
      board.entries := s[..index] + [x] + s[index..];
      if |board.entries| > maxLeaderboardLength {
        board.entries := board.entries[..|board.entries| - 1];
      }
      assert board.entries == Offer(s, x, maxLeaderboardLength);
      return Pass;
    }

    /** Offers every corpus word to a fresh, empty leaderboard. */
    method BuildLeaderboardForWordList() returns (r: Result<seq<ScoredWord>, Error>)
      requires Valid()
      ensures IsBuildOutcome(r, validWords, WholeCorpus, minWordLength, letterValues, maxLeaderboardLength)
    {
      var board := new Leaderboard();
      for i := 0 to |validWords|
        invariant PoolScorable(validWords[..i], WholeCorpus, minWordLength, letterValues)
        invariant board.entries == Board(Pool(validWords[..i], WholeCorpus, minWordLength, letterValues), maxLeaderboardLength)
        invariant Sorted(board.entries) && |board.entries| <= maxLeaderboardLength
      {
        var outcome := AddToLeaderboard(board, validWords[i]);
        PoolScorableStep(validWords, i, WholeCorpus, minWordLength, letterValues);
        if outcome.Fail? {
          assert FirstUnscorable(validWords, i, WholeCorpus, minWordLength, letterValues);
          return Failure(outcome.error);
        }
        PoolStep(validWords, i, WholeCorpus, minWordLength, letterValues, maxLeaderboardLength);
      }
      assert validWords[..|validWords|] == validWords;
      return Success(board.entries);
    }

    /** Counts the starting letters, then offers every corpus word that can be spelt from
        them to a fresh, empty leaderboard. */
    method BuildLeaderboardForLetters(startingLetters: string) returns (r: Result<seq<ScoredWord>, Error>)
      requires Valid()
      ensures IsBuildOutcome(r, validWords, FromLetters(Occurrences(startingLetters)), minWordLength,
                             letterValues, maxLeaderboardLength)
    {
      var board := new Leaderboard();
      var letterCounts := CountLetters(startingLetters);
      assert letterCounts == Occurrences(startingLetters);
      ghost var mode := FromLetters(letterCounts);
      for i := 0 to |validWords|
        invariant PoolScorable(validWords[..i], mode, minWordLength, letterValues)
        invariant board.entries == Board(Pool(validWords[..i], mode, minWordLength, letterValues), maxLeaderboardLength)
        invariant Sorted(board.entries) && |board.entries| <= maxLeaderboardLength
      {
        var feasible := CanBeBuiltFromLetters(validWords[i], letterCounts);
        PoolScorableStep(validWords, i, mode, minWordLength, letterValues);
        if feasible {
          var outcome := AddToLeaderboard(board, validWords[i]);
          if outcome.Fail? {
            assert FirstUnscorable(validWords, i, mode, minWordLength, letterValues);
            return Failure(outcome.error);
          }
        }
        PoolStep(validWords, i, mode, minWordLength, letterValues, maxLeaderboardLength);
      }
      assert validWords[..|validWords|] == validWords;
      return Success(board.entries);
    }
  }
}
