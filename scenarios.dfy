/** The scenarios of the repository's unit tests, stated about the model. The letter
    values are the tests' table: each lowercase letter is worth its position in the
    alphabet. */
module Scenarios {
  import opened Wrappers
  import opened StringOrder
  import opened Ranking
  import opened Letters
  import opened Scoring
  import opened HighScoring

  /** a = 1, b = 2, ..., z = 26. */
  function AlphabetValues(): map<char, int>
  {
    map['a' := 1, 'b' := 2, 'c' := 3, 'd' := 4, 'e' := 5, 'f' := 6, 'g' := 7, 'h' := 8, 'i' := 9, 'j' := 10, 'k' := 11, 'l' := 12, 'm' := 13, 'n' := 14,
        'o' := 15, 'p' := 16, 'q' := 17, 'r' := 18, 's' := 19, 't' := 20, 'u' := 21, 'v' := 22, 'w' := 23, 'x' := 24, 'y' := 25, 'z' := 26]
  }

  lemma ConstructionRejections()
    ensures Validate([], AlphabetValues()) == Some(EmptyWords)
    ensures Validate(["aaa"], map[]) == Some(EmptyLetterValues)
    ensures Validate(["aaa"], map['A' := 1, 'B' := 2]) == Some(IncompleteLetterValues)
  {
  }

  /** The values of the letters the scenarios use. */
  lemma AlphabetLookups()
    ensures var t := AlphabetValues();
      && 'b' in t && t['b'] == 2 && 'e' in t && t['e'] == 5 && 'i' in t && t['i'] == 9
      && 'l' in t && t['l'] == 12 && 'n' in t && t['n'] == 14 && 's' in t && t['s'] == 19
      && 't' in t && t['t'] == 20 && 'u' in t && t['u'] == 21 && 'x' in t && t['x'] == 24
  {
  }

  /** "listen" scores 12 + 9 + 19 + 20 + 5 + 14 = 79 under any table with those values. */
  lemma ListenScoreIn(t: map<char, int>)
    requires 'l' in t && t['l'] == 12 && 'i' in t && t['i'] == 9 && 's' in t && t['s'] == 19
    requires 't' in t && t['t'] == 20 && 'e' in t && t['e'] == 5 && 'n' in t && t['n'] == 14
    ensures Scorable("listen", t) && Score("listen", t) == 79
  {
    assert "l"[..0] == "";
    assert Score("l", t) == 12;
    assert "li"[..1] == "l";
    assert Score("li", t) == 21;
    assert "lis"[..2] == "li";
    assert Score("lis", t) == 40;
    assert "list"[..3] == "lis";
    assert Score("list", t) == 60;
    assert "liste"[..4] == "list";
    assert Score("liste", t) == 65;
    assert "listen"[..5] == "liste";
  }

  lemma ListenScore()
    ensures Scorable("listen", AlphabetValues()) && Score("listen", AlphabetValues()) == 79
  {
    AlphabetLookups();
    ListenScoreIn(AlphabetValues());
  }

  /** Its anagram "silent" scores the same. */
  lemma SilentScoreIn(t: map<char, int>)
    requires 'l' in t && t['l'] == 12 && 'i' in t && t['i'] == 9 && 's' in t && t['s'] == 19
    requires 't' in t && t['t'] == 20 && 'e' in t && t['e'] == 5 && 'n' in t && t['n'] == 14
    ensures Scorable("silent", t) && Score("silent", t) == 79
  {
    assert "s"[..0] == "";
    assert Score("s", t) == 19;
    assert "si"[..1] == "s";
    assert Score("si", t) == 28;
    assert "sil"[..2] == "si";
    assert Score("sil", t) == 40;
    assert "sile"[..3] == "sil";
    assert Score("sile", t) == 45;
    assert "silen"[..4] == "sile";
    assert Score("silen", t) == 59;
    assert "silent"[..5] == "silen";
  }

  lemma SilentScore()
    ensures Scorable("silent", AlphabetValues()) && Score("silent", AlphabetValues()) == 79
  {
    AlphabetLookups();
    SilentScoreIn(AlphabetValues());
  }

  /** On a full board of one entry, an equal score with a smaller word displaces the
      last entry, and one with a greater word does not get in. */
  lemma TieAtCapScenario()
    ensures Offer([ScoredWord("silent", 79)], ScoredWord("listen", 79), 1) == [ScoredWord("listen", 79)]
    ensures Offer([ScoredWord("listen", 79)], ScoredWord("silent", 79), 1) == [ScoredWord("listen", 79)]
  {
  }

  /** Equal scores: "listen" goes before "silent" whichever comes first. */
  lemma ListenBeforeSilent()
    ensures Offer([ScoredWord("silent", 79)], ScoredWord("listen", 79), 5)
      == [ScoredWord("listen", 79), ScoredWord("silent", 79)]
    ensures Offer([ScoredWord("listen", 79)], ScoredWord("silent", 79), 5)
      == [ScoredWord("listen", 79), ScoredWord("silent", 79)]
  {
  }

  lemma LettersScenario()
    ensures !Feasible("bukll", Occurrences("bulx"))
    ensures Feasible("bulx", Occurrences("bulx")) && Feasible("bul", Occurrences("bulx"))
  {
  }

  /** "bul" scores 2 + 21 + 12 = 35 and "bulx" 35 + 24 = 59 under any table with those values. */
  lemma BulxScoresIn(t: map<char, int>)
    requires 'b' in t && t['b'] == 2 && 'u' in t && t['u'] == 21
    requires 'l' in t && t['l'] == 12 && 'x' in t && t['x'] == 24
    ensures Scorable("bul", t) && Score("bul", t) == 35
    ensures Scorable("bulx", t) && Score("bulx", t) == 59
  {
    assert "b"[..0] == "";
    assert Score("b", t) == 2;
    assert "bu"[..1] == "b";
    assert Score("bu", t) == 23;
    assert "bul"[..2] == "bu";
    assert Score("bul", t) == 35;
    assert "bulx"[..3] == "bul";
  }

  lemma BulxScores()
    ensures Scorable("bul", AlphabetValues()) && Score("bul", AlphabetValues()) == 35
    ensures Scorable("bulx", AlphabetValues()) && Score("bulx", AlphabetValues()) == 59
  {
    AlphabetLookups();
    BulxScoresIn(AlphabetValues());
  }

  /** Starting letters "bulx": of the corpus "bul", "bulx", "bukll" only "bukll" is not
      eligible, and the two eligible words can be scored. */
  lemma LettersEligibility()
    ensures Eligible("bul", FromLetters(Occurrences("bulx")), 3)
    ensures Eligible("bulx", FromLetters(Occurrences("bulx")), 3)
    ensures !Eligible("bukll", FromLetters(Occurrences("bulx")), 3)
  {
    LettersScenario();
  }

  /** The pool of a two-word corpus whose words are both eligible and scorable. */
  lemma PoolOfTwo(a: string, b: string, mode: Mode, minLength: int, t: map<char, int>)
    requires Eligible(a, mode, minLength) && Scorable(a, t)
    requires Eligible(b, mode, minLength) && Scorable(b, t)
    ensures PoolScorable([a, b], mode, minLength, t)
    ensures Pool([a, b], mode, minLength, t) == [ScoredWord(a, Score(a, t)), ScoredWord(b, Score(b, t))]
  {
    assert [a] + [b] == [a, b];
    PoolSnoc([a], b, mode, minLength, t);
    assert [] + [a] == [a];
    PoolSnoc([], a, mode, minLength, t);
  }

  /** Appending an ineligible word leaves the pool as it was. */
  lemma PoolIneligibleLast(ws: seq<string>, w: string, mode: Mode, minLength: int, t: map<char, int>)
    requires PoolScorable(ws, mode, minLength, t) && !Eligible(w, mode, minLength)
    ensures PoolScorable(ws + [w], mode, minLength, t)
    ensures Pool(ws + [w], mode, minLength, t) == Pool(ws, mode, minLength, t)
  {
    assert PoolScorable(ws + [w], mode, minLength, t) by {
      forall i | 0 <= i < |ws + [w]| && Eligible((ws + [w])[i], mode, minLength)
        ensures Scorable((ws + [w])[i], t)
      {
        assert i < |ws| && (ws + [w])[i] == ws[i];
      }
    }
    PoolSnoc(ws, w, mode, minLength, t);
  }

  /** The pool of the corpus "bul", "bulx", "bukll" when only the first two are eligible. */
  lemma LettersPoolIn(mode: Mode, t: map<char, int>)
    requires Eligible("bul", mode, 3) && Eligible("bulx", mode, 3) && !Eligible("bukll", mode, 3)
    requires Scorable("bul", t) && Score("bul", t) == 35
    requires Scorable("bulx", t) && Score("bulx", t) == 59
    ensures PoolScorable(["bul", "bulx", "bukll"], mode, 3, t)
    ensures Pool(["bul", "bulx", "bukll"], mode, 3, t) == [ScoredWord("bul", 35), ScoredWord("bulx", 59)]
  {
    PoolOfTwo("bul", "bulx", mode, 3, t);
    PoolIneligibleLast(["bul", "bulx"], "bukll", mode, 3, t);
    assert ["bul", "bulx"] + ["bukll"] == ["bul", "bulx", "bukll"];
  }

  /** The pool is bul: 35 and bulx: 59, in corpus order. */
  lemma LettersPoolScenario()
    ensures PoolScorable(["bul", "bulx", "bukll"], FromLetters(Occurrences("bulx")), 3, AlphabetValues())
    ensures Pool(["bul", "bulx", "bukll"], FromLetters(Occurrences("bulx")), 3, AlphabetValues())
      == [ScoredWord("bul", 35), ScoredWord("bulx", 59)]
  {
    LettersEligibility();
    BulxScores();
    LettersPoolIn(FromLetters(Occurrences("bulx")), AlphabetValues());
  }

  /** Folding bul: 35 then bulx: 59 puts bulx first. */
  lemma BoardOfBulBulx()
    ensures Board([ScoredWord("bul", 35), ScoredWord("bulx", 59)], 100)
      == [ScoredWord("bulx", 59), ScoredWord("bul", 35)]
  {
    var bul, bulx := ScoredWord("bul", 35), ScoredWord("bulx", 59);
    assert [bul, bulx][..1] == [bul] && [bul][..0] == [];
    assert Board([bul], 100) == [bul];
    assert RankPosition([bul], bulx) == 0;
  }

  /** ... and the leaderboard puts bulx: 59 before bul: 35. */
  lemma LettersLeaderboardScenario()
    ensures PoolScorable(["bul", "bulx", "bukll"], FromLetters(Occurrences("bulx")), 3, AlphabetValues())
    ensures Board(Pool(["bul", "bulx", "bukll"], FromLetters(Occurrences("bulx")), 3, AlphabetValues()), 100)
      == [ScoredWord("bulx", 59), ScoredWord("bul", 35)]
  {
    LettersPoolScenario();
    BoardOfBulBulx();
  }
}
