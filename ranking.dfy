/** Scored words and the bounded ranked list they are collected into.

    The leaderboard order is "value descending, then word ascending". `Precedes`
    is that order written as "may stand before"; it is a total order on
    `ScoredWord`, so a sorted sequence is determined by its multiset of entries.
    The functions below specify the insertion steps the builder performs:
    `RankPosition` and `InsertRanked` the ranked insertion, `Offer` one bounded
    insertion with its fast reject and its trimming, `Board` a whole pass over
    candidates, and `Ranked` an independent reference ranking. */
module Ranking {
  import opened StringOrder

  /** A word with its score. Equality is structural: two entries with the same word
      and value are the same entry. */
  datatype ScoredWord = ScoredWord(word: string, value: int)

  /** `a` may stand before `b` on a leaderboard: a higher value, or the same value and
      a word that is not greater than `b`'s. */
  predicate Precedes(a: ScoredWord, b: ScoredWord)
  {
    a.value > b.value || (a.value == b.value && !LexLess(b.word, a.word))
  }

  lemma PrecedesTotal(a: ScoredWord, b: ScoredWord)
    ensures Precedes(a, b) || Precedes(b, a)
  {
    LexLessAsymmetric(a.word, b.word);
  }

  lemma PrecedesAntisymmetric(a: ScoredWord, b: ScoredWord)
    requires Precedes(a, b) && Precedes(b, a)
    ensures a == b
  {
    LexLessTrichotomy(a.word, b.word);
  }

  lemma PrecedesTransitive(a: ScoredWord, b: ScoredWord, c: ScoredWord)
    requires Precedes(a, b) && Precedes(b, c)
    ensures Precedes(a, c)
  {
    if a.value == b.value == c.value && LexLess(c.word, a.word) {
      LexLessTrichotomy(a.word, b.word);
      if a.word != b.word {
        LexLessTransitive(c.word, a.word, b.word);
      }
    }
  }

  /** Every entry may stand before every later entry. */
  ghost predicate Sorted(s: seq<ScoredWord>)
  {
    forall i, j :: 0 <= i < j < |s| ==> Precedes(s[i], s[j])
  }

  /** Where `x` goes in `s`: past the leading run of entries that may stand before it. */
  function RankPosition(s: seq<ScoredWord>, x: ScoredWord): (p: nat)
    ensures p <= |s|
    ensures forall j :: 0 <= j < p ==> Precedes(s[j], x)
    ensures p < |s| ==> !Precedes(s[p], x)
  {
    if s == [] || !Precedes(s[0], x) then 0 else 1 + RankPosition(s[1..], x)
  }

  /** In a sorted list the position splits the entries exactly: all earlier ones have a
      higher value or the same value and a word not greater than `x`'s, and all later ones
      have a lower value or the same value and a greater word. */
  lemma RankPositionSplits(s: seq<ScoredWord>, x: ScoredWord)
    requires Sorted(s)
    ensures forall j :: 0 <= j < RankPosition(s, x) ==>
      s[j].value > x.value || (s[j].value == x.value && !LexLess(x.word, s[j].word))
    ensures forall j :: RankPosition(s, x) <= j < |s| ==>
      s[j].value < x.value || (s[j].value == x.value && LexLess(x.word, s[j].word))
  {
    var p := RankPosition(s, x);
    forall j | p < j < |s| ensures !Precedes(s[j], x) {
      if Precedes(s[j], x) {
        PrecedesTransitive(s[p], s[j], x);
      }
    }
  }

  /** Any position that splits a list into "before `x`" and "not before `x`" is the rank position. */
  lemma RankPositionUnique(s: seq<ScoredWord>, x: ScoredWord, q: nat)
    requires q <= |s|
    requires forall j :: 0 <= j < q ==> Precedes(s[j], x)
    requires forall j :: q <= j < |s| ==> !Precedes(s[j], x)
    ensures q == RankPosition(s, x)
  {
    var p := RankPosition(s, x);
    if p < q {
      assert false;
    }
    assert q < |s| ==> !Precedes(s[q], x);
    if q < p {
      assert false;
    }
  }

  /** The position where the walk back past equal-valued entries with greater words stops
      is the rank position. */
  lemma WalkStopIsRankPosition(s: seq<ScoredWord>, x: ScoredWord, index: nat)
    requires Sorted(s) && index <= |s|
    requires forall j :: 0 <= j < index ==> s[j].value >= x.value
    requires forall j :: index <= j < |s| ==> !Precedes(s[j], x)
    requires index > 0 ==> s[index - 1].value != x.value || !LexLess(x.word, s[index - 1].word)
    ensures index == RankPosition(s, x)
  {
    forall j | 0 <= j < index ensures Precedes(s[j], x) {
      if j < index - 1 {
        PrecedesTransitive(s[j], s[index - 1], x);
      }
    }
    RankPositionUnique(s, x, index);
  }

  /** `s` with `x` inserted at its rank position. */
  function InsertRanked(s: seq<ScoredWord>, x: ScoredWord): (r: seq<ScoredWord>)
    ensures |r| == |s| + 1
    ensures multiset(r) == multiset(s) + multiset{x}
  {
    var p := RankPosition(s, x);
    assert s == s[..p] + s[p..];
    s[..p] + [x] + s[p..]
  }

  /** Element `k` of a list with `x` spliced in at position `p`. */
  lemma SpliceAt(s: seq<ScoredWord>, p: nat, x: ScoredWord, k: nat)
    requires p <= |s| && k <= |s|
    ensures (s[..p] + [x] + s[p..])[k] == (if k < p then s[k] else if k == p then x else s[k - 1])
  {
  }

  /** Element by element: before the rank position the old entries, then `x`, then the
      old entries shifted by one. */
  lemma InsertRankedAt(s: seq<ScoredWord>, x: ScoredWord)
    ensures forall k :: 0 <= k <= |s| ==>
      InsertRanked(s, x)[k] == (if k < RankPosition(s, x) then s[k] else if k == RankPosition(s, x) then x else s[k - 1])
  {
    var p := RankPosition(s, x);
    assert InsertRanked(s, x) == s[..p] + [x] + s[p..];
    forall k | 0 <= k <= |s|
      ensures InsertRanked(s, x)[k] == (if k < p then s[k] else if k == p then x else s[k - 1])
    {
      SpliceAt(s, p, x, k);
    }
  }

  /** Ranked insertion keeps a list sorted. */
  lemma InsertRankedSorted(s: seq<ScoredWord>, x: ScoredWord)
    requires Sorted(s)
    ensures Sorted(InsertRanked(s, x))
  {
    var p := RankPosition(s, x);
    var r := InsertRanked(s, x);
    RankPositionSplits(s, x);
    InsertRankedAt(s, x);
    forall i, j | 0 <= i < j < |r| ensures Precedes(r[i], r[j]) {
      if i == p {
        PrecedesTotal(x, s[j - 1]);
      } else if j != p {
        var i', j' := if i < p then i else i - 1, if j < p then j else j - 1;
        assert r[i] == s[i'] && r[j] == s[j'] && i' < j';
      }
    }
  }

  /** The list after one bounded insertion of `x` (`cap` is the maximum length): unchanged
      when the list is full and `x` scores strictly below its last entry, otherwise `x` is
      inserted at its rank position and, if the list then exceeds the cap, its last entry
      is dropped. */
  function Offer(s: seq<ScoredWord>, x: ScoredWord, cap: nat): seq<ScoredWord>
    requires cap >= 1
  {
    if |s| == cap && x.value < s[|s| - 1].value then s
    else
      var t := InsertRanked(s, x);
      if |t| > cap then t[..|t| - 1] else t
  }

  /** One bounded insertion keeps the list sorted and within the cap. */
  lemma OfferKeepsInvariant(s: seq<ScoredWord>, x: ScoredWord, cap: nat)
    requires cap >= 1 && Sorted(s) && |s| <= cap
    ensures Sorted(Offer(s, x, cap)) && |Offer(s, x, cap)| <= cap
  {
    InsertRankedSorted(s, x);
  }

  /** When the fast reject does not apply, one bounded insertion is the splice at the
      rank position, minus the last entry if the cap is exceeded. */
  lemma OfferAdmitted(s: seq<ScoredWord>, x: ScoredWord, cap: nat, index: nat)
    requires cap >= 1 && index == RankPosition(s, x)
    requires !(|s| == cap && x.value < s[|s| - 1].value)
    ensures var t := s[..index] + [x] + s[index..];
      Offer(s, x, cap) == if |t| > cap then t[..|t| - 1] else t
  {
  }

  /** In a sorted list the values do not increase. */
  lemma SortedValuesDescend(s: seq<ScoredWord>)
    requires Sorted(s)
    ensures forall i, j :: 0 <= i < j < |s| ==> s[i].value >= s[j].value
  {
    forall i, j | 0 <= i < j < |s| ensures s[i].value >= s[j].value {
      assert Precedes(s[i], s[j]);
    }
  }

  /** A full list still admits a word that ties its last value and has a smaller word:
      the fast reject is strict. */
  lemma OfferAdmitsTieAtCap(s: seq<ScoredWord>, x: ScoredWord, cap: nat)
    requires cap >= 1 && |s| == cap
    requires x.value == s[cap - 1].value && LexLess(x.word, s[cap - 1].word)
    ensures x in Offer(s, x, cap)
  {
    var p := RankPosition(s, x);
    assert p < cap;
    InsertRankedAt(s, x);
    assert Offer(s, x, cap)[p] == x;
  }

  /** The first `k` entries of `s` (all of them when there are fewer). */
  function Take(s: seq<ScoredWord>, k: nat): seq<ScoredWord>
  {
    if |s| <= k then s else s[..k]
  }

  /** Reference ranking: the sorted arrangement of the entries of `ws`. */
  function Ranked(ws: seq<ScoredWord>): seq<ScoredWord>
  {
    if ws == [] then [] else InsertRanked(Ranked(ws[..|ws| - 1]), ws[|ws| - 1])
  }

  /** The result of offering every entry of `ws`, in order, to an initially empty list. */
  function Board(ws: seq<ScoredWord>, cap: nat): seq<ScoredWord>
    requires cap >= 1
  {
    if ws == [] then [] else Offer(Board(ws[..|ws| - 1], cap), ws[|ws| - 1], cap)
  }

  lemma {:induction false} RankedSortedPermutation(ws: seq<ScoredWord>)
    ensures Sorted(Ranked(ws)) && multiset(Ranked(ws)) == multiset(ws)
  {
    if ws != [] {
      var init, x := ws[..|ws| - 1], ws[|ws| - 1];
      RankedSortedPermutation(init);
      InsertRankedSorted(Ranked(init), x);
      assert ws == init + [x];
      assert multiset(ws) == multiset(init) + multiset{x};
    }
  }

  /** The head of a sorted list may stand before each of its entries. */
  lemma SortedHeadFirst(s: seq<ScoredWord>, y: ScoredWord)
    requires Sorted(s) && y in multiset(s)
    ensures Precedes(s[0], y)
  {
    var i :| 0 <= i < |s| && s[i] == y;
    if i == 0 {
      PrecedesTotal(y, y);
    }
  }

  lemma SortedTail(s: seq<ScoredWord>)
    requires Sorted(s) && s != []
    ensures Sorted(s[1..])
  {
    forall i, j | 0 <= i < j < |s| - 1 ensures Precedes(s[1..][i], s[1..][j]) {
      assert s[1..][i] == s[i + 1] && s[1..][j] == s[j + 1];
    }
  }

  lemma MultisetTail(s: seq<ScoredWord>)
    requires s != []
    ensures multiset(s[1..]) == multiset(s) - multiset{s[0]}
  {
    assert s == [s[0]] + s[1..];
  }

  /** A sorted list is determined by its entries. */
  lemma {:induction false} SortedUnique(s: seq<ScoredWord>, t: seq<ScoredWord>)
    requires Sorted(s) && Sorted(t) && multiset(s) == multiset(t)
    ensures s == t
    decreases |s|
  {
    assert |t| == |multiset(t)| == |multiset(s)| == |s|;
    if s != [] {
      assert s[0] in multiset(t) && t[0] in multiset(s);
      SortedHeadFirst(t, s[0]);
      SortedHeadFirst(s, t[0]);
      PrecedesAntisymmetric(s[0], t[0]);
      MultisetTail(s);
      MultisetTail(t);
      SortedTail(s);
      SortedTail(t);
      SortedUnique(s[1..], t[1..]);
      assert s == [s[0]] + s[1..] && t == [t[0]] + t[1..];
    }
  }

  /** The reference ranking does not depend on the order of its input. */
  lemma RankedOrderIndependent(ws1: seq<ScoredWord>, ws2: seq<ScoredWord>)
    requires multiset(ws1) == multiset(ws2)
    ensures Ranked(ws1) == Ranked(ws2)
  {
    RankedSortedPermutation(ws1);
    RankedSortedPermutation(ws2);
    SortedUnique(Ranked(ws1), Ranked(ws2));
  }

  /** When `x` ranks after the first `k` entries, inserting it leaves those entries in front. */
  lemma InsertRankedBeyond(rs: seq<ScoredWord>, x: ScoredWord, k: nat)
    requires k <= |rs| && k <= RankPosition(rs, x)
    ensures InsertRanked(rs, x)[..k] == rs[..k]
  {
    InsertRankedAt(rs, x);
  }

  /** Only the first `k` entries matter for the first `k` entries after an insertion. */
  lemma InsertRankedPrefix(rs: seq<ScoredWord>, x: ScoredWord, k: nat)
    requires k <= |rs|
    ensures InsertRanked(rs[..k], x)[..k] == InsertRanked(rs, x)[..k]
  {
    var s := rs[..k];
    var p, q := RankPosition(rs, x), RankPosition(s, x);
    assert q == if p < k then p else k by {
      if p < k {
        assert !Precedes(s[p], x);
      }
    }
    var a, b := InsertRanked(s, x), InsertRanked(rs, x);
    InsertRankedAt(rs, x);
    InsertRankedAt(s, x);
    forall i | 0 <= i < k ensures a[i] == b[i] {
      assert s[i] == rs[i];
      if i > 0 {
        assert s[i - 1] == rs[i - 1];
      }
    }
  }

  /** Offering `x` to the first `cap` entries of a sorted list gives the first `cap`
      entries of the list with `x` inserted. */
  lemma OfferTake(rs: seq<ScoredWord>, x: ScoredWord, cap: nat)
    requires cap >= 1 && Sorted(rs)
    ensures Offer(Take(rs, cap), x, cap) == Take(InsertRanked(rs, x), cap)
  {
    var s := Take(rs, cap);
    if |s| == cap && x.value < s[cap - 1].value {
      assert s == rs[..cap];
      forall j | 0 <= j < cap ensures Precedes(rs[j], x) {
        if j < cap - 1 {
          assert Precedes(rs[j], rs[cap - 1]);
        }
      }
      InsertRankedBeyond(rs, x, cap);
    } else if |rs| >= cap {
      assert s == rs[..cap];
      InsertRankedPrefix(rs, x, cap);
    }
  }

  /** A pass of bounded insertions keeps exactly the first `cap` entries of the reference
      ranking, whatever the order of the candidates. */
  lemma {:induction false} BoardIsTopRanked(ws: seq<ScoredWord>, cap: nat)
    requires cap >= 1
    ensures Board(ws, cap) == Take(Ranked(ws), cap)
  {
    if ws != [] {
      var init := ws[..|ws| - 1];
      BoardIsTopRanked(init, cap);
      RankedSortedPermutation(init);
      OfferTake(Ranked(init), ws[|ws| - 1], cap);
    }
  }

  /** `r` holds the best `k` entries of `pool` (all of them when there are fewer), sorted:
      it is drawn from `pool`, and each of its entries may stand before every entry of
      `pool` it leaves out. */
  ghost predicate IsTopK(r: seq<ScoredWord>, pool: seq<ScoredWord>, k: nat)
  {
    && Sorted(r)
    && |r| == (if |pool| < k then |pool| else k)
    && multiset(r) <= multiset(pool)
    && forall i, y :: 0 <= i < |r| && y in multiset(pool) - multiset(r) ==> Precedes(r[i], y)
  }

  /** In a sorted list, every entry of a prefix may stand before every entry of the rest. */
  lemma SortedPrefixPrecedesRest(rs: seq<ScoredWord>, k: nat)
    requires Sorted(rs) && k <= |rs|
    ensures forall i, y :: 0 <= i < k && y in multiset(rs[k..]) ==> Precedes(rs[i], y)
  {
    forall i, y | 0 <= i < k && y in multiset(rs[k..]) ensures Precedes(rs[i], y) {
      var j :| k <= j < |rs| && rs[j] == y;
    }
  }

  /** The first `k` entries of a sorted arrangement of `pool` are its top `k`. */
  lemma SortedPrefixIsTopK(rs: seq<ScoredWord>, pool: seq<ScoredWord>, k: nat)
    requires Sorted(rs) && multiset(rs) == multiset(pool) && k < |rs|
    ensures IsTopK(rs[..k], pool, k)
  {
    var r, rest := rs[..k], rs[k..];
    assert rs == r + rest;
    assert multiset(pool) - multiset(r) == multiset(rest);
    SortedPrefixPrecedesRest(rs, k);
    assert |pool| == |multiset(pool)| == |rs|;
  }

  lemma TakeRankedIsTopK(pool: seq<ScoredWord>, k: nat)
    ensures IsTopK(Take(Ranked(pool), k), pool, k)
  {
    var rs := Ranked(pool);
    RankedSortedPermutation(pool);
    assert |rs| == |multiset(rs)| == |pool|;
    if |rs| > k {
      SortedPrefixIsTopK(rs, pool, k);
    } else {
      assert multiset(pool) - multiset(rs) == multiset{};
    }
  }

  lemma BoardIsTopK(ws: seq<ScoredWord>, cap: nat)
    requires cap >= 1
    ensures IsTopK(Board(ws, cap), ws, cap)
  {
    BoardIsTopRanked(ws, cap);
    TakeRankedIsTopK(ws, cap);
  }

  /** `bisect.bisect_right(a, -score, key=lambda e: -e.value)`: on a list whose values
      descend, the position after every entry whose value is at least `score`. */
  method BisectRight(a: seq<ScoredWord>, score: int) returns (lo: nat)
    requires forall i, j :: 0 <= i < j < |a| ==> a[i].value >= a[j].value
    ensures lo <= |a|
    ensures forall j :: 0 <= j < lo ==> a[j].value >= score
    ensures forall j :: lo <= j < |a| ==> a[j].value < score
  {
    lo := 0;
    var hi := |a|;
    while lo < hi
      invariant 0 <= lo <= hi <= |a|
      invariant forall j :: 0 <= j < lo ==> a[j].value >= score
      invariant forall j :: hi <= j < |a| ==> a[j].value < score
    {
      var mid := (lo + hi) / 2;
      // the key of an entry is its negated value, and the searched key is -score
      if -score < -a[mid].value {
        hi := mid;
      } else {
        lo := mid + 1;
      }
    }
  }

  /** Where `x` goes in a sorted list: a binary search on the values finds the end of the
      entries scoring at least as much, then a walk back passes the equal-valued entries
      whose words are greater than `x`'s. */
  method InsertionIndex(s: seq<ScoredWord>, x: ScoredWord) returns (index: nat)
    requires Sorted(s)
    ensures index == RankPosition(s, x)
  {
    SortedValuesDescend(s);
    index := BisectRight(s, x.value);
    while index > 0 && s[index - 1].value == x.value && LexLess(x.word, s[index - 1].word)
      invariant 0 <= index <= |s|
      invariant forall j :: 0 <= j < index ==> s[j].value >= x.value
      invariant forall j :: index <= j < |s| ==> !Precedes(s[j], x)
      decreases index
    {
      index := index - 1;
    }
    WalkStopIsRankPosition(s, x, index);
  }
}
