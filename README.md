# High-scoring words leaderboard, modelled in Dafny

This project models the leaderboard builder of `highscoringwords.py`. The class
`HighScoringWords` holds two things. The first is a word corpus. The second is a table of
letter values, and a word's score is the sum of its letters' values. From these the class
builds a *leaderboard*: the top `MAX_LEADERBOARD_LENGTH` words (100 by default), ordered by
score descending and then by word ascending. Words shorter than `MIN_WORD_LENGTH` (3 by
default) are skipped. There are two build modes:

- the whole corpus;
- only the corpus words that can be spelt from a supplied string of starting letters, where
  each letter may be used at most as often as it occurs in that string.

The leaderboard is filled by bounded ranked insertion:

- a fast reject when the board is full and the score is strictly below the last entry;
- a binary search on the negated scores;
- a walk back past equal-scored entries whose words are greater;
- an insert, then dropping the last entry if the board has outgrown its cap.

Modules, one file each:

- `Wrappers` (`wrappers.dfy`): the `Option`, `Result` and `Outcome` types.
- `StringOrder` (`string_order.dfy`): Python's `<` on strings, as `LexLess`, with its order
  laws.
- `Ranking` (`ranking.dfy`): `ScoredWord` and the leaderboard order `Precedes`. It also holds
  the specification functions for one insertion (`RankPosition`, `InsertRanked`, `Offer`), a
  whole pass (`Board`) and an independent reference ranking (`Ranked`, `Take`, `IsTopK`). The
  imperative searches `BisectRight` and `InsertionIndex` live here too.
- `Letters` (`letters.dfy`): counting letters (`CountLetters`) and the feasibility check
  (`CanBeBuiltFromLetters`), both specified by multisets.
- `Scoring` (`scoring.dfy`): `Score` as the sum of letter values, and `MissingIndex`, the
  first letter without a value.
- `HighScoring` (`high_scoring.dfy`): the construction checks, the classes `Leaderboard` (the
  list the builder mutates in place) and `HighScoringWords` (scoring, bounded insertion, the
  two builds), and the "pool" of eligible scored words that specifies a build.
- `Scenarios` (`scenarios.dfy`): the unit tests' situations, stated about the model.

The main results:

- A build returns `Board(Pool(...), cap)`. This is proved equal to the first `cap` entries of
  the reference ranking of the pool, and it is the pool's top `cap`.
- The result does not depend on the corpus order.
- Every entry is an eligible corpus word with its true score.
- A word that ties the last entry of a full board still gets in when its word is smaller.

## Model

The method contracts are stated in terms of specification functions that carry no
contract of their own:

- `Scoring.Score` is the sum of the letter values (`highscoringwords.py:129-134`).
- `Letters.Occurrences` is the count table of a string (lines 152-160).
- `Letters.Feasible` is the spelling check against such a table (lines 136-150).
- `Ranking.Offer` is one bounded insertion (lines 105-127).
- `Ranking.Board` is a whole pass of bounded insertions over candidates in order (lines 74-79 and 93-95).
- `HighScoring.Pool` is the list of eligible corpus words with their scores, in corpus order (lines 76-77 and 93-95).

Each member below states its property in terms of those functions.

| member | source | states |
|---|---|---|
| HighScoring.Validate | highscoringwords.py:34-40 | Construction is accepted exactly when the corpus is non-empty and the table has exactly 26 entries. Otherwise the error is the first failed check, in the source's order: empty corpus, then empty table, then wrong count. Only the number of keys is checked, not which keys they are. |
| HighScoring.HighScoringWords.constructor | highscoringwords.py:27-43 | Given arguments that pass the checks, the object stores the corpus and the table. The cap is 100 and the minimum length is 3. |
| HighScoring.HighScoringWords.Create | highscoringwords.py:27-43 | Construction with its checks: fails with exactly the error `Validate` reports. Otherwise it returns a fresh object holding the arguments and the default settings. |
| HighScoring.HighScoringWords.CalculateScore | highscoringwords.py:129-134 | Succeeds exactly when every letter of the word has a value, and then returns the sum of the letter values. Otherwise it fails with the first letter that has no value (the source's `KeyError`). |
| Scoring.MissingIndex | highscoringwords.py:131-132 | The index of the first letter without a value. All earlier letters have values, and the index is the word's length exactly when the word can be scored. |
| Scoring.ScoreAppend | highscoringwords.py:129-134 | The score of a concatenation is the sum of the scores of its parts. |
| Scoring.ScoreWithout | highscoringwords.py:129-134 | Removing one letter from a word lowers its score by that letter's value. |
| Scoring.ScoreAnagram | highscoringwords.py:129-134 | Words with the same multiset of letters have the same score. |
| Scoring.ScoreNonNegative | highscoringwords.py:129-134 | With non-negative letter values, every score is non-negative. |
| Letters.CountLetters | highscoringwords.py:152-160 | The keys are exactly the characters of the input, each mapped to its number of occurrences. |
| Letters.CanBeBuiltFromLetters | highscoringwords.py:136-150 | True exactly when every letter of the word is in the counts and occurs in the word no more often than its count. |
| Letters.FeasibleIffSubMultiset | highscoringwords.py:136-160 | Against the counts of a letter string, a word is feasible exactly when its letter multiset is contained in that string's multiset. |
| StringOrder.LexLessIrreflexive | highscoringwords.py:120 | No string is smaller than itself. |
| StringOrder.LexLessAsymmetric | highscoringwords.py:120 | Two strings are never smaller than each other. |
| StringOrder.LexLessTrichotomy | highscoringwords.py:120 | Two strings are equal, or one is smaller than the other. |
| StringOrder.LexLessTransitive | highscoringwords.py:120 | The string order is transitive. |
| Ranking.PrecedesTotal | highscoringwords.py:114-122 | Either of two entries may stand before the other. |
| Ranking.PrecedesAntisymmetric | highscoringwords.py:16-19 | Two entries that may each stand before the other are equal as pairs of word and value. |
| Ranking.PrecedesTransitive | highscoringwords.py:114-122 | The leaderboard order is transitive. |
| Ranking.RankPosition | highscoringwords.py:114-122 | The insertion position: every earlier entry may stand before the new one, and the entry at the position may not. |
| Ranking.RankPositionSplits | highscoringwords.py:114-122 | In a sorted list, every entry before the position has a higher score, or an equal score and a word that is not greater. Every entry from the position on has a lower score, or an equal score and a greater word. |
| Ranking.RankPositionUnique | highscoringwords.py:114-122 | Any position that splits the list in this way is the rank position. |
| Ranking.WalkStopIsRankPosition | highscoringwords.py:117-122 | Where the walk back stops, below the binary-search bound with no earlier entry tied and greater, is the rank position. |
| Ranking.BisectRight | highscoringwords.py:114 | On a list with descending scores, returns the position after every entry scoring at least the new score. Every entry from there on scores less. |
| Ranking.InsertionIndex | highscoringwords.py:114-122 | The binary search followed by the walk back returns exactly the rank position. |
| Ranking.InsertRanked | highscoringwords.py:124 | The list grows by one, and its multiset gains exactly the new entry. |
| Ranking.InsertRankedAt | highscoringwords.py:124 | Element by element: the old entries up to the position, then the new entry, then the rest of the old entries shifted by one. |
| Ranking.InsertRankedSorted | highscoringwords.py:113-124 | Ranked insertion keeps a sorted list sorted. |
| Ranking.OfferKeepsInvariant | highscoringwords.py:105-127 | One bounded insertion keeps the board sorted and within the cap. |
| Ranking.OfferAdmitted | highscoringwords.py:124-127 | When the fast reject does not apply, one bounded insertion is the insert at the rank position. If the cap is exceeded, the last entry is then dropped. |
| Ranking.SortedValuesDescend | highscoringwords.py:114 | In a sorted board the scores do not increase, as the binary search needs. |
| Ranking.OfferAdmitsTieAtCap | highscoringwords.py:105-109 | The fast reject is strict: on a full board, an entry whose score ties the last entry and whose word is smaller ends up on the board. |
| Ranking.RankedSortedPermutation | highscoringwords.py:113-124 | The reference ranking is sorted and is a permutation of its input. |
| Ranking.SortedUnique | highscoringwords.py:116-122 | Two sorted lists with the same entries are equal, so the tie-break order leaves nothing to chance. |
| Ranking.RankedOrderIndependent | highscoringwords.py:76-77 | The reference ranking does not depend on the order of its input. |
| Ranking.InsertRankedBeyond | highscoringwords.py:124-127 | If the new entry ranks after the first `k` entries, inserting it leaves those entries in front. |
| Ranking.InsertRankedPrefix | highscoringwords.py:124-127 | The first `k` entries after an insertion depend only on the first `k` entries before it. |
| Ranking.OfferTake | highscoringwords.py:105-127 | Offering an entry to the first `cap` entries of a sorted list gives the first `cap` entries of the full ranked insertion. |
| Ranking.BoardIsTopRanked | highscoringwords.py:74-79 | A pass of bounded insertions over any candidate sequence equals the first `cap` entries of the reference ranking. |
| Ranking.SortedPrefixIsTopK | highscoringwords.py:105-127 | A prefix of a sorted arrangement of a pool is that pool's top `k`. |
| Ranking.TakeRankedIsTopK | highscoringwords.py:105-127 | The first `k` entries of the reference ranking are the pool's top `k`: sorted, as long as possible, drawn from the pool, and each entry at least as good as every entry left out. |
| Ranking.BoardIsTopK | highscoringwords.py:74-79 | A pass of bounded insertions yields the top `cap` of its candidates. |
| HighScoring.Leaderboard.constructor | highscoringwords.py:74 | A fresh leaderboard is empty. |
| HighScoring.HighScoringWords.AddToLeaderboard | highscoringwords.py:99-127 | For a sorted board within the cap, the board stays sorted and within the cap. A word that is too short leaves the board unchanged. A word with an unvalued letter fails with the missing-letter error and leaves the board unchanged. Any other word turns the board into the result of one bounded insertion of the word with its score. |
| HighScoring.HighScoringWords.BuildLeaderboardForWordList | highscoringwords.py:69-79 | Succeeds with the bounded-insertion pass over the pool of the whole corpus when every eligible word can be scored. Otherwise it fails with the missing letter of the first eligible word that cannot be scored. |
| HighScoring.HighScoringWords.BuildLeaderboardForLetters | highscoringwords.py:81-97 | As above, but the pool keeps only the feasible words, using the occurrence counts of the starting letters. |
| HighScoring.PoolMultiset | highscoringwords.py:76-77 | The pool holds each eligible word, with its score, as often as the corpus holds it, and nothing else. |
| HighScoring.LeaderboardOrderIndependent | highscoringwords.py:76-77 | Corpora with the same words, in any order, give the same leaderboard. |
| HighScoring.LeaderboardEntriesEligible | highscoringwords.py:93-95 | Every leaderboard entry is a corpus word that is long enough, feasible in letters mode, and carries its true score. |
| HighScoring.LettersLeaderboardSpellable | highscoringwords.py:81-97 | In letters mode, every leaderboard word's letter multiset is contained in the starting letters, and its length is at least the minimum. |
| HighScoring.BuildOutcomeIsTopK | highscoringwords.py:69-97 | A successful build is the first `cap` entries of the reference ranking of the pool, and the pool's top `cap`. |
| HighScoring.PoolScorableStep | highscoringwords.py:76-77 | A longer corpus prefix stays scorable exactly when the next word, if eligible, can be scored. |
| HighScoring.PoolSnoc | highscoringwords.py:76-77 | Appending a word to the corpus appends its scored entry to the pool exactly when the word is eligible. |
| HighScoring.PoolStep | highscoringwords.py:76-77 | The board of a one-word-longer prefix is one bounded insertion of that word when it is eligible, and unchanged otherwise. |
| Scenarios.ConstructionRejections | test/test_highscoringwords.py:20-26 | An empty corpus, an empty table and a two-entry table are each rejected with their own error. |
| Scenarios.ListenScore | test/test_highscoringwords.py:42-47 | With a = 1 through z = 26, "listen" scores 79. |
| Scenarios.SilentScore | test/test_highscoringwords.py:42-47 | With a = 1 through z = 26, "silent" also scores 79. |
| Scenarios.TieAtCapScenario | highscoringwords.py:105-127 | On a full one-entry board, listen: 79 displaces silent: 79, and silent: 79 does not displace listen: 79. |
| Scenarios.ListenBeforeSilent | test/test_highscoringwords.py:42-55 | With room to spare, listen: 79 goes before silent: 79, whichever is offered second. |
| Scenarios.LettersScenario | test/test_highscoringwords.py:105-121 | From the starting letters "bulx", "bul" and "bulx" can be spelt, and "bukll" cannot. |
| Scenarios.BulxScores | test/test_highscoringwords.py:112-115 | "bul" scores 35 and "bulx" scores 59. |
| Scenarios.LettersPoolScenario | test/test_highscoringwords.py:105-121 | The pool for corpus bul, bulx, bukll and starting letters "bulx" is bul: 35 then bulx: 59. |
| Scenarios.LettersLeaderboardScenario | test/test_highscoringwords.py:105-121 | That build's leaderboard is bulx: 59, then bul: 35. |

## Left out

- `from_files` (lines 46-67) reads two text files. File I/O and the parsing of lines are not modelled; the corpus and the table are parameters.
- `ScoredWord.__str__` (lines 13-14) is presentation only. `main.py`, the command-line driver with its timing and printing, is presentation too.
- The `None` arguments of the constructor are not modelled. Dafny has no `None` for a sequence or a map, so absent arguments correspond to the empty ones, which fail the same checks.
- The corpus is a Python `set` with no defined iteration order. It is modelled as a `seq` in an arbitrary order, and `LeaderboardOrderIndependent` shows that the order does not matter. Duplicate words, which a set cannot hold, are allowed by the model and handled correctly.
- `MAX_LEADERBOARD_LENGTH` and `MIN_WORD_LENGTH` are class attributes that the tests override per instance. They are modelled as mutable fields set by the constructor. The class invariant `Valid` requires a cap of at least 1: with a cap of 0, the fast reject at line 107 would index an empty list. With a negative cap, each insert at line 124 is undone by the pop at line 127, so the Python result is always empty; that case is excluded as well.
- HighScoring.HighScoringWords.AddToLeaderboard: requires the board to be sorted and within the cap. The source's only callers start from an empty list, and `bisect` gives no meaning to an unsorted list.
- HighScoring.Validate: checks only the number of table entries, as the code does. The docstring (`highscoringwords.py:31`) and the error message at line 40 ("Letter values not provided for all letters") describe one value per letter. Because only the count is checked, a 26-key table that lacks a letter passes construction. Scoring then fails only for an eligible word that uses the missing letter.
- HighScoring.HighScoringWords.constructor: requires the construction checks to pass, because a Dafny constructor cannot fail. `Create` models the raising constructor as a `Result`.
- The `ValueError` and `KeyError` exceptions are modelled as `Failure` or `Fail` values carrying an `Error`. A failing build stops at its first unscorable eligible word and returns no leaderboard, as the exception would.
- Python integers are unbounded, and so are Dafny's `int`; no wrap-around exists to model.
- The tests for none arguments (lines 13-18, covered by the empty cases), the ten-word list test (lines 28-55) and the "deora" letters test (lines 84-103) are not worked out entry by entry. Their shared facts are: the listen/silent tie order, the length filter and the top-`cap` property, all of which are proved in general.
