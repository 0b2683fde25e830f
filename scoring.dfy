/** Word scores: the sum of the letter values of a word's characters. */
module Scoring {

  /** Every character of `word` has a value in `table`. */
  ghost predicate Scorable(word: string, table: map<char, int>)
  {
    forall i :: 0 <= i < |word| ==> word[i] in table
  }

  /** The sum of `table[c]` over the characters `c` of `word`. */
  function Score(word: string, table: map<char, int>): int
    requires Scorable(word, table)
    decreases |word|
  {
    if word == [] then 0 else Score(word[..|word| - 1], table) + table[word[|word| - 1]]
  }

  /** The index of the first character of `word` that has no value in `table`, or `|word|`
      when there is none. */
  function MissingIndex(word: string, table: map<char, int>): (k: nat)
    ensures k <= |word|
    ensures forall j :: 0 <= j < k ==> word[j] in table
    ensures k < |word| ==> word[k] !in table
    ensures k == |word| <==> Scorable(word, table)
    decreases |word|
  {
    if word == [] || word[0] !in table then 0 else 1 + MissingIndex(word[1..], table)
  }

  lemma {:induction false} ScoreAppend(a: string, b: string, table: map<char, int>)
    requires Scorable(a, table) && Scorable(b, table)
    ensures Scorable(a + b, table) && Score(a + b, table) == Score(a, table) + Score(b, table)
    decreases |b|
  {
    if b == [] {
      assert a + b == a;
    } else {
      ScoreAppend(a, b[..|b| - 1], table);
      assert (a + b)[..|a + b| - 1] == a + b[..|b| - 1];
    }
  }

  /** Taking out one character takes its value off the score. */
  lemma ScoreWithout(b: string, j: nat, table: map<char, int>)
    requires j < |b| && Scorable(b, table)
    ensures multiset(b[..j] + b[j + 1..]) == multiset(b) - multiset{b[j]}
    ensures Scorable(b[..j] + b[j + 1..], table)
    ensures Score(b, table) == Score(b[..j] + b[j + 1..], table) + table[b[j]]
  {
    var front, back := b[..j], b[j + 1..];
    assert b == front + [b[j]] + back;
    assert multiset(b) == multiset(front) + multiset{b[j]} + multiset(back);
    ScoreAppend(front, back, table);
    ScoreAppend(front, [b[j]], table);
    ScoreAppend(front + [b[j]], back, table);
    assert Score([b[j]], table) == table[b[j]] by {
      assert [b[j]][..0] == [];
    }
  }

  /** Words with the same letters score the same (for instance "listen" and "silent"). */
  lemma {:induction false} ScoreAnagram(a: string, b: string, table: map<char, int>)
    requires multiset(a) == multiset(b) && Scorable(a, table)
    ensures Scorable(b, table) && Score(a, table) == Score(b, table)
    decreases |a|
  {
    forall i | 0 <= i < |b| ensures b[i] in table {
      assert b[i] in multiset(a);
      var k :| 0 <= k < |a| && a[k] == b[i];
    }
    if a == [] {
      assert |b| == |multiset(b)| == 0;
    } else {
      var x, init := a[|a| - 1], a[..|a| - 1];
      assert a == init + [x];
      assert multiset(init) == multiset(a) - multiset{x};
      assert x in multiset(b);
      var j :| 0 <= j < |b| && b[j] == x;
      ScoreWithout(b, j, table);
      ScoreAnagram(init, b[..j] + b[j + 1..], table);
    }
  }

  /** With non-negative letter values every score is non-negative. */
  lemma {:induction false} ScoreNonNegative(word: string, table: map<char, int>)
    requires Scorable(word, table)
    requires forall c :: c in table ==> table[c] >= 0
    ensures Score(word, table) >= 0
    decreases |word|
  {
    if word != [] {
      ScoreNonNegative(word[..|word| - 1], table);
    }
  }
}
