/** Letter multisets: counting the starting letters and checking whether a word can be
    spelt from them. */
module Letters {

  /** The occurrence-count table of `s`: its keys are the characters of `s`, each mapped
      to its number of occurrences. */
  ghost function Occurrences(s: string): map<char, int>
  {
    map c | c in s :: multiset(s)[c]
  }

  /** Every character of `word` is a key of `counts` and occurs in `word` at most
      `counts[c]` times. */
  ghost predicate Feasible(word: string, counts: map<char, int>)
  {
    forall c :: c in word ==> c in counts && multiset(word)[c] <= counts[c]
  }

  /** Against the counts of a letter string, feasibility is inclusion of letter multisets. */
  lemma FeasibleIffSubMultiset(word: string, letters: string)
    ensures Feasible(word, Occurrences(letters)) <==> multiset(word) <= multiset(letters)
  {
    if Feasible(word, Occurrences(letters)) {
      forall c ensures multiset(word)[c] <= multiset(letters)[c] {
        if c in word {
          assert c in Occurrences(letters);
        }
      }
    }
    if multiset(word) <= multiset(letters) {
      forall c | c in word ensures c in Occurrences(letters) {
        assert multiset(word)[c] > 0;
        assert c in multiset(letters);
      }
    }
  }

  /** One pass over `letters`, incrementing a counter per character. */
  method CountLetters(letters: string) returns (counts: map<char, int>)
    ensures forall c :: c in counts <==> c in letters
    ensures forall c :: c in counts ==> counts[c] == multiset(letters)[c]
  {
    counts := map[];
    for i := 0 to |letters|
      invariant forall c :: c in counts <==> c in letters[..i]
      invariant forall c :: c in counts ==> counts[c] == multiset(letters[..i])[c]
    {
      var c := letters[i];
      assert letters[..i + 1] == letters[..i] + [c];
      if c !in counts {
        counts := counts[c := 0];
      }
      counts := counts[c := counts[c] + 1];
    }
    assert letters[..|letters|] == letters;
  }

  /** Counts the letters of `word` while scanning it, and stops at the first letter that
      is missing from `counts` or used more often than `counts` allows. */
  method CanBeBuiltFromLetters(word: string, counts: map<char, int>) returns (ok: bool)
    ensures ok <==> Feasible(word, counts)
  {
    var wordLetters: map<char, int> := map[];
    for i := 0 to |word|
      invariant forall c :: c in wordLetters <==> c in word[..i]
      invariant forall c :: c in wordLetters ==> wordLetters[c] == multiset(word[..i])[c]
      invariant Feasible(word[..i], counts)
    {
      var c := word[i];
      assert word[..i + 1] == word[..i] + [c];
      assert word == word[..i + 1] + word[i + 1..];
      if c !in counts {
        return false;
      }
      if c !in wordLetters {
        wordLetters := wordLetters[c := 0];
      }
      wordLetters := wordLetters[c := wordLetters[c] + 1];
      if wordLetters[c] > counts[c] {
        return false;
      }
    }
    assert word[..|word|] == word;
    return true;
  }
}
