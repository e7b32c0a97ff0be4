/**
 * A model of the dealer of the Set card game: the initial deck, the end-of-game
 * test and the winner announcement.  Player scores are an input array (the
 * players' `getScore()` values, indexed by player id); the set-finder is a
 * function parameter about which nothing is assumed.
 */
module Dealer {

  // ---------------------------------------------------------------------------
  // The deck
  // ---------------------------------------------------------------------------

  /** The deck the dealer is constructed with: card ids 0, 1, ..., deckSize - 1
      in order (empty when deckSize is not positive, as an empty integer range). */
  function InitialDeck(deckSize: int): (deck: seq<int>)
    ensures |deck| == if deckSize > 0 then deckSize else 0
    ensures forall i :: 0 <= i < |deck| ==> deck[i] == i
    decreases deckSize
  {
    if deckSize <= 0 then [] else InitialDeck(deckSize - 1) + [deckSize - 1]
  }

  /** Every card id of [0, deckSize) is in the initial deck, nothing else is,
      and no card appears twice. */
  lemma LemmaInitialDeckHoldsEachCardOnce(deckSize: int)
    ensures forall c :: c in InitialDeck(deckSize) <==> 0 <= c < deckSize
    ensures forall i, j :: 0 <= i < j < |InitialDeck(deckSize)| ==>
              InitialDeck(deckSize)[i] != InitialDeck(deckSize)[j]
  {
    var deck := InitialDeck(deckSize);
    forall c | 0 <= c < deckSize
      ensures c in deck
    {
      assert deck[c] == c;
    }
  }

  // ---------------------------------------------------------------------------
  // The end-of-game test
  // ---------------------------------------------------------------------------

  /** The external set-finder: given a list of cards and a wanted count, it
      returns the sets it found, each a list of card ids. */
  type SetFinder = (seq<int>, int) -> seq<seq<int>>

  /** The dealer stops dealing when termination was requested or when the
      set-finder, asked for at least one set in the deck, finds none. */
  predicate ShouldFinish(terminate: bool, deck: seq<int>, findSets: SetFinder): (finish: bool)
    ensures terminate ==> finish
    ensures !terminate ==> (finish <==> findSets(deck, 1) == [])
  {
    terminate || |findSets(deck, 1)| == 0
  }

  /** Three distinct positions of the deck hold cards that form a set. */
  ghost predicate HasSet(deck: seq<int>, isValidSet: (int, int, int) -> bool)
  {
    exists i, j, k :: 0 <= i < j < k < |deck| && isValidSet(deck[i], deck[j], deck[k])
  }

  /** Without a requested termination, and with a set-finder that finds something
      exactly when the deck holds a set, the game ends exactly when no set is
      left in the deck. */
  lemma LemmaShouldFinishMeansTerminateOrNoSetLeft(
    terminate: bool, deck: seq<int>, findSets: SetFinder, isValidSet: (int, int, int) -> bool)
    requires |findSets(deck, 1)| > 0 <==> HasSet(deck, isValidSet)
    ensures !terminate ==> (ShouldFinish(terminate, deck, findSets) <==> !HasSet(deck, isValidSet))
  {
  }

  // ---------------------------------------------------------------------------
  // Winners: the reference definitions
  // ---------------------------------------------------------------------------

  /** All scores are non-negative: a player's score starts at 0 and only grows. */
  predicate NonNegative(scores: seq<int>)
  {
    forall k :: 0 <= k < |scores| ==> scores[k] >= 0
  }

  /** The highest score, found by looking at the players one after the other. */
  function MaxScore(scores: seq<int>): (m: int)
    requires |scores| > 0
    ensures scores[0] <= m && scores[|scores| - 1] <= m
  {
    if |scores| == 1 then scores[0]
    else
      var m := MaxScore(scores[..|scores| - 1]);
      if scores[|scores| - 1] > m then scores[|scores| - 1] else m
  }

  /** Some player holds the highest score, and nobody holds more. */
  lemma {:induction false} LemmaMaxScoreIsMaximum(scores: seq<int>)
    requires |scores| > 0
    ensures MaxScore(scores) in scores
    ensures forall k :: 0 <= k < |scores| ==> scores[k] <= MaxScore(scores)
  {
    if |scores| > 1 {
      var init := scores[..|scores| - 1];
      LemmaMaxScoreIsMaximum(init);
      assert scores == init + [scores[|scores| - 1]];
    }
  }

  /** The ids of the players whose score is `score`, in increasing order. */
  function IndicesOf(scores: seq<int>, score: int): (ids: seq<int>)
    ensures |ids| <= |scores|
  {
    if |scores| == 0 then []
    else
      IndicesOf(scores[..|scores| - 1], score)
      + (if scores[|scores| - 1] == score then [|scores| - 1] else [])
  }

  /** Adding a player at the end adds its id at the end when it has the score. */
  lemma LemmaIndicesOfSnoc(scores: seq<int>, x: int, score: int)
    ensures IndicesOf(scores + [x], score)
         == IndicesOf(scores, score) + (if x == score then [|scores|] else [])
  {
    assert (scores + [x])[..|scores|] == scores;
  }

  /** Every id listed is a player holding the score. */
  lemma {:induction false} LemmaIndicesOfSound(scores: seq<int>, score: int)
    ensures forall j :: 0 <= j < |IndicesOf(scores, score)| ==>
              0 <= IndicesOf(scores, score)[j] < |scores| && scores[IndicesOf(scores, score)[j]] == score
  {
    if |scores| > 0 {
      var n := |scores| - 1;
      var init := scores[..n];
      LemmaIndicesOfSound(init, score);
      var ids0 := IndicesOf(init, score);
      var ids := IndicesOf(scores, score);
      assert ids == ids0 + (if scores[n] == score then [n] else []);
      forall j | 0 <= j < |ids|
        ensures 0 <= ids[j] < |scores| && scores[ids[j]] == score
      {
        if j < |ids0| {
          assert ids[j] == ids0[j];
          assert scores[ids0[j]] == init[ids0[j]];
        }
      }
    }
  }

  /** The ids are listed in strictly increasing order. */
  lemma {:induction false} LemmaIndicesOfSorted(scores: seq<int>, score: int)
    ensures forall j, j' :: 0 <= j < j' < |IndicesOf(scores, score)| ==>
              IndicesOf(scores, score)[j] < IndicesOf(scores, score)[j']
  {
    if |scores| > 0 {
      var n := |scores| - 1;
      var init := scores[..n];
      LemmaIndicesOfSorted(init, score);
      LemmaIndicesOfSound(init, score);
      var ids0 := IndicesOf(init, score);
      assert IndicesOf(scores, score) == ids0 + (if scores[n] == score then [n] else []);
    }
  }

  /** Every player holding the score is listed. */
  lemma {:induction false} LemmaIndicesOfComplete(scores: seq<int>, score: int)
    ensures forall k :: 0 <= k < |scores| && scores[k] == score ==> k in IndicesOf(scores, score)
  {
    if |scores| > 0 {
      var n := |scores| - 1;
      var init := scores[..n];
      LemmaIndicesOfComplete(init, score);
      var ids0 := IndicesOf(init, score);
      var ids := IndicesOf(scores, score);
      assert ids == ids0 + (if scores[n] == score then [n] else []);
      forall k | 0 <= k < |scores| && scores[k] == score
        ensures k in ids
      {
        if k < n {
          assert init[k] == score;
          var j :| 0 <= j < |ids0| && ids0[j] == k;
          assert ids[j] == k;
        } else {
          assert ids[|ids| - 1] == n;
        }
      }
    }
  }

  /** No id is listed for a score nobody holds. */
  lemma {:induction false} LemmaIndicesOfAbsent(scores: seq<int>, score: int)
    requires forall k :: 0 <= k < |scores| ==> scores[k] != score
    ensures IndicesOf(scores, score) == []
  {
    if |scores| > 0 {
      LemmaIndicesOfAbsent(scores[..|scores| - 1], score);
    }
  }

  /** The number of players with a given score is its multiplicity among the scores. */
  lemma {:induction false} LemmaIndicesOfCounts(scores: seq<int>, score: int)
    ensures |IndicesOf(scores, score)| == multiset(scores)[score]
  {
    if |scores| > 0 {
      var init := scores[..|scores| - 1];
      LemmaIndicesOfCounts(init, score);
      assert scores == init + [scores[|scores| - 1]];
      assert multiset(scores) == multiset(init) + multiset{scores[|scores| - 1]};
    }
  }

  /** The holder of the maximum score is listed among its holders. */
  lemma LemmaMaxScoreHeld(scores: seq<int>)
    requires |scores| > 0
    ensures |IndicesOf(scores, MaxScore(scores))| > 0
  {
    LemmaMaxScoreIsMaximum(scores);
    var m := MaxScore(scores);
    LemmaIndicesOfComplete(scores, m);
    var k :| 0 <= k < |scores| && scores[k] == m;
    assert k in IndicesOf(scores, m);
  }

  /** The intended winners: every player whose score is the maximum, in id order;
      there is at least one as soon as there is a player. */
  function Winners(scores: seq<int>): (w: seq<int>)
    ensures |scores| > 0 ==> 0 < |w|
  {
    if |scores| == 0 then []
    else
      LemmaMaxScoreHeld(scores);
      IndicesOf(scores, MaxScore(scores))
  }

  /** The winners are exactly the players holding the maximum score, listed
      once each in increasing id order; there are between 1 and |scores| of them,
      as many as the maximum occurs among the scores. */
  lemma LemmaWinnersAreTheMaxScorers(scores: seq<int>)
    requires |scores| > 0
    ensures forall k :: 0 <= k < |scores| ==> (k in Winners(scores) <==> scores[k] == MaxScore(scores))
    ensures forall j :: 0 <= j < |Winners(scores)| ==> 0 <= Winners(scores)[j] < |scores|
    ensures forall j, j' :: 0 <= j < j' < |Winners(scores)| ==> Winners(scores)[j] < Winners(scores)[j']
    ensures 1 <= |Winners(scores)| <= |scores|
    ensures |Winners(scores)| == multiset(scores)[MaxScore(scores)]
  {
    LemmaMaxScoreIsMaximum(scores);
    var m := MaxScore(scores);
    var w := Winners(scores);
    LemmaIndicesOfSound(scores, m);
    LemmaIndicesOfSorted(scores, m);
    LemmaIndicesOfComplete(scores, m);
    var k :| 0 <= k < |scores| && scores[k] == m;
    assert k in w;
    LemmaIndicesOfCounts(scores, m);
  }

  /** Adding a player at the end raises the maximum exactly when its score is higher. */
  lemma LemmaMaxScoreSnoc(scores: seq<int>, x: int)
    requires |scores| > 0
    ensures MaxScore(scores + [x]) == if x > MaxScore(scores) then x else MaxScore(scores)
  {
    assert (scores + [x])[..|scores|] == scores;
  }

  /** How one more player changes the maximum and the list of its holders: a higher
      score starts a new list, an equal score joins the list, a lower one changes
      nothing. */
  lemma LemmaScanStep(scores: seq<int>, x: int)
    requires |scores| > 0
    ensures x > MaxScore(scores) ==>
              MaxScore(scores + [x]) == x && IndicesOf(scores + [x], x) == [|scores|]
    ensures x == MaxScore(scores) ==>
              MaxScore(scores + [x]) == x
              && IndicesOf(scores + [x], x) == IndicesOf(scores, x) + [|scores|]
    ensures x < MaxScore(scores) ==>
              MaxScore(scores + [x]) == MaxScore(scores)
              && IndicesOf(scores + [x], MaxScore(scores)) == IndicesOf(scores, MaxScore(scores))
  {
    LemmaMaxScoreSnoc(scores, x);
    LemmaMaxScoreIsMaximum(scores);
    var m := MaxScore(scores);
    if x > m {
      LemmaIndicesOfAbsent(scores, x);
      LemmaIndicesOfSnoc(scores, x, x);
    } else if x == m {
      LemmaIndicesOfSnoc(scores, x, x);
    } else {
      LemmaIndicesOfSnoc(scores, x, m);
    }
  }

  /** The first player alone holds the maximum and is its only holder. */
  lemma LemmaScanFirst(x: int)
    ensures MaxScore([x]) == x && IndicesOf([x], x) == [0]
  {
    LemmaIndicesOfSnoc([], x, x);
    assert [] + [x] == [x];
  }

  // ---------------------------------------------------------------------------
  // Winners: what the source announces
  // ---------------------------------------------------------------------------

  /** The end of `announceWinners`: the ids handed to the UI, or the index of the
      array access that throws. */
  datatype Outcome<T> = Announced(ids: T) | IndexOutOfBounds(index: int)

  /** What `announceWinners` does on non-negative scores: with no player the copy
      loop reads winners[0] of an empty array, with one player the first score
      is written to winners[1] of a one-element array; otherwise it announces
      player 0 followed by every maximum scorer except the first. */
  function AnnouncedAsWritten(scores: seq<int>): (r: Outcome<seq<int>>)
    ensures |scores| < 2 ==> r == IndexOutOfBounds(|scores|)
    ensures |scores| >= 2 ==> r.Announced? && |r.ids| == |Winners(scores)| && r.ids[0] == 0
  {
    if |scores| == 0 then IndexOutOfBounds(0)
    else if |scores| == 1 then IndexOutOfBounds(1)
    else Announced([0] + Winners(scores)[1..])
  }

  /** With two players or more the announcement lists as many ids as there are
      maximum scorers (so between 1 and the number of players); its first id is
      always 0, its later ids are the 2nd, 3rd, ... maximum scorers, and the whole
      list increases strictly, so no id is announced twice. */
  lemma LemmaAnnouncedShape(scores: seq<int>)
    requires |scores| >= 2
    ensures AnnouncedAsWritten(scores).Announced?
    ensures |AnnouncedAsWritten(scores).ids| == |Winners(scores)|
    ensures 1 <= |AnnouncedAsWritten(scores).ids| <= |scores|
    ensures AnnouncedAsWritten(scores).ids[0] == 0
    ensures forall j :: 1 <= j < |AnnouncedAsWritten(scores).ids| ==>
              AnnouncedAsWritten(scores).ids[j] == Winners(scores)[j]
              && 0 <= AnnouncedAsWritten(scores).ids[j] < |scores|
              && scores[AnnouncedAsWritten(scores).ids[j]] == MaxScore(scores)
    ensures forall j, j' :: 0 <= j < j' < |AnnouncedAsWritten(scores).ids| ==>
              AnnouncedAsWritten(scores).ids[j] < AnnouncedAsWritten(scores).ids[j']
  {
    var m := MaxScore(scores);
    var w := Winners(scores);
    LemmaIndicesOfSound(scores, m);
    LemmaIndicesOfSorted(scores, m);
    var a := [0] + w[1..];
    assert AnnouncedAsWritten(scores).ids == a;
    assert forall j :: 1 <= j < |a| ==> a[j] == w[j];
  }

  /** When player 0 does not hold the maximum score, the first player that does
      is never announced. */
  lemma LemmaFirstMaxScorerDropped(scores: seq<int>, first: int)
    requires |scores| >= 2
    requires 0 < first < |scores| && scores[first] == MaxScore(scores)
    requires forall k :: 0 <= k < first ==> scores[k] < MaxScore(scores)
    ensures first !in AnnouncedAsWritten(scores).ids
  {
    LemmaWinnersAreTheMaxScorers(scores);
    LemmaAnnouncedShape(scores);
    var m := MaxScore(scores);
    var w := Winners(scores);
    var a := AnnouncedAsWritten(scores).ids;
    LemmaIndicesOfSound(scores, m);
    LemmaIndicesOfSorted(scores, m);
    LemmaIndicesOfComplete(scores, m);
    assert first in w;
    assert scores[w[0]] == m;
    assert w[0] == first;
    forall j | 0 <= j < |a|
      ensures a[j] != first
    {
      if j > 0 {
        assert a[j] == w[j];
      }
    }
  }

  /** When player 0 holds the maximum score it is the first winner. */
  lemma LemmaPlayerZeroFirstWinner(scores: seq<int>)
    requires |scores| > 0 && scores[0] == MaxScore(scores)
    ensures Winners(scores)[0] == 0
  {
    var w := Winners(scores);
    LemmaIndicesOfSound(scores, scores[0]);
    LemmaIndicesOfSorted(scores, scores[0]);
    LemmaIndicesOfComplete(scores, scores[0]);
    assert 0 in w;
  }

  /** The announcement lists all the maximum scorers exactly when player 0 is one
      of them. */
  lemma LemmaAnnouncedIsWinnersIff(scores: seq<int>)
    requires |scores| >= 2
    ensures AnnouncedAsWritten(scores) == Announced(Winners(scores)) <==> scores[0] == MaxScore(scores)
  {
    var m := MaxScore(scores);
    var w := Winners(scores);
    var a := [0] + w[1..];
    assert AnnouncedAsWritten(scores) == Announced(a);
    if scores[0] == m {
      LemmaPlayerZeroFirstWinner(scores);
      assert a == w;
    } else {
      LemmaIndicesOfSound(scores, m);
      assert scores[w[0]] == m;
      assert a[0] != w[0];
    }
  }

  /** Players 1 and 2 hold the maximum 3 among the scores [2, 3, 3]. */
  lemma LemmaTieExamplePrefix(scores: seq<int>)
    requires scores == [2, 3, 3]
    ensures MaxScore(scores) == 3 && IndicesOf(scores, 3) == [1, 2]
  {
    var s1, s2 := scores[..1], scores[..2];
    assert s1 == [2] && s2 == s1 + [3] && scores == s2 + [3];
    LemmaScanFirst(2);
    LemmaScanStep(s1, 3);
    LemmaScanStep(s2, 3);
  }

  /** The maximum scorers among [2, 3, 3, 1] are players 1 and 2. */
  lemma LemmaTieExampleWinners(scores: seq<int>)
    requires scores == [2, 3, 3, 1]
    ensures Winners(scores) == [1, 2]
  {
    var s3 := scores[..3];
    assert scores == s3 + [1];
    LemmaTieExamplePrefix(s3);
    LemmaScanStep(s3, 1);
  }

  /** The tie example: scores [2, 3, 3, 1] should announce players 1 and 2,
      but the source announces 0 and 2. */
  lemma LemmaTieExampleAsWritten(scores: seq<int>)
    requires scores == [2, 3, 3, 1]
    ensures Winners(scores) == [1, 2]
    ensures AnnouncedAsWritten(scores) == Announced([0, 2])
  {
    LemmaTieExampleWinners(scores);
    var w := Winners(scores);
    assert w[1..] == [2];
    assert [0] + w[1..] == [0, 2];
  }

  /** A single player makes the source throw, although that player is the winner. */
  lemma LemmaSinglePlayerAsWritten(score: int)
    ensures Winners([score]) == [0]
    ensures AnnouncedAsWritten([score]) == IndexOutOfBounds(1)
  {
    LemmaScanFirst(score);
  }

  // ---------------------------------------------------------------------------
  // Winners: the loops
  // ---------------------------------------------------------------------------

  /** After the first `i` players the running maximum and the ids holding it
      agree with the reference definitions (-1 and none before any player). */
  ghost predicate Scanned(s: seq<int>, i: int, maxScore: int, tied: seq<int>)
    requires 0 <= i <= |s|
  {
    if i == 0 then maxScore == -1 && tied == []
    else maxScore == MaxScore(s[..i]) && tied == IndicesOf(s[..i], maxScore)
  }

  /** One iteration of the scan: an equal score joins the tie list, a higher one
      replaces it, a lower one leaves it; the list never holds more ids than
      players seen, and holds one as soon as a player was seen. */
  lemma LemmaScannedStep(s: seq<int>, i: int, maxScore: int, tied: seq<int>)
    requires 0 <= i < |s| && NonNegative(s)
    requires Scanned(s, i, maxScore, tied)
    ensures i == 0 <==> tied == []
    ensures |tied| <= i
    ensures i == 0 ==> s[i] > maxScore
    ensures s[i] == maxScore ==> Scanned(s, i + 1, maxScore, tied + [i])
    ensures s[i] > maxScore ==> Scanned(s, i + 1, s[i], [i])
    ensures s[i] < maxScore ==> Scanned(s, i + 1, maxScore, tied)
  {
    assert s[..i + 1] == s[..i] + [s[i]];
    if i == 0 {
      LemmaScanFirst(s[0]);
    } else {
      LemmaMaxScoreHeld(s[..i]);
      LemmaScanStep(s[..i], s[i]);
    }
  }

  /** After the whole scan the tie list is the list of winners. */
  lemma LemmaScannedAll(s: seq<int>, maxScore: int, tied: seq<int>)
    requires Scanned(s, |s|, maxScore, tied)
    ensures tied == Winners(s)
  {
    assert s[..|s|] == s;
  }

  /** `announceWinners` as written: one pass keeps the running maximum and the
      number of players seen with it, storing ids into `winners`, and a second
      loop copies the first `numOfEqualScores` entries into the announced array. */
  method AnnounceWinners(scores: array<int>) returns (r: Outcome<array<int>>)
    requires NonNegative(scores[..])
    ensures r.IndexOutOfBounds? ==> AnnouncedAsWritten(scores[..]) == IndexOutOfBounds(r.index)
    ensures r.Announced? ==> AnnouncedAsWritten(scores[..]) == Announced(r.ids[..])
  {
    ghost var s := scores[..];
    var players := scores.Length;
    var winners := new int[players](_ => 0);
    var numOfEqualScores := 1;
    var maxScore := -1;
    ghost var tied: seq<int> := [];  // the ids seen so far with the running maximum
    for i := 0 to players
      invariant Scanned(s, i, maxScore, tied)
      invariant i == 0 ==> numOfEqualScores == 1
      invariant 0 < i ==> 2 <= players && numOfEqualScores == |tied|
      invariant 0 < players ==> winners[0] == 0
      invariant forall k :: 1 <= k < |tied| ==> winners[k] == tied[k]
    {
      LemmaScannedStep(s, i, maxScore, tied);
      if scores[i] == maxScore {
        winners[numOfEqualScores] := i;
        numOfEqualScores := numOfEqualScores + 1;
        tied := tied + [i];
      }
      if scores[i] > maxScore {
        maxScore := scores[i];
        numOfEqualScores := 1;
        tied := [i];
        if players <= 1 {
          return IndexOutOfBounds(1);
        }
        winners[1] := i;
      }
    }
    ghost var found := winners[..];
    var endListOfWinners := new int[numOfEqualScores];
    for i := 0 to numOfEqualScores
      invariant i <= players
      invariant winners[..] == found
      invariant forall k :: 0 <= k < i ==> endListOfWinners[k] == ([0] + tied[1..])[k]
    {
      if i >= players {
        return IndexOutOfBounds(i);
      }
      endListOfWinners[i] := winners[i];
    }
    LemmaScannedAll(s, maxScore, tied);
    assert endListOfWinners[..] == [0] + tied[1..];
    return Announced(endListOfWinners);
  }

  /** The same two loops with the tie list kept from winners[0] on (and empty
      before the first player is seen): they announce every maximum scorer. */
  method AnnounceWinnersCorrected(scores: array<int>) returns (ends: array<int>)
    requires NonNegative(scores[..])
    ensures ends[..] == Winners(scores[..])
  {
    ghost var s := scores[..];
    var players := scores.Length;
    var winners := new int[players](_ => 0);
    var numOfEqualScores := 0;
    var maxScore := -1;
    ghost var tied: seq<int> := [];  // the ids seen so far with the running maximum
    for i := 0 to players
      invariant Scanned(s, i, maxScore, tied)
      invariant numOfEqualScores == |tied|
      invariant forall k :: 0 <= k < |tied| ==> winners[k] == tied[k]
    {
      LemmaScannedStep(s, i, maxScore, tied);
      if scores[i] == maxScore {
        winners[numOfEqualScores] := i;
        numOfEqualScores := numOfEqualScores + 1;
        tied := tied + [i];
      }
      if scores[i] > maxScore {
        maxScore := scores[i];
        numOfEqualScores := 1;
        winners[0] := i;
        tied := [i];
      }
    }
    LemmaScannedAll(s, maxScore, tied);
    ghost var found := winners[..];
    ends := new int[numOfEqualScores];
    for i := 0 to numOfEqualScores
      invariant winners[..] == found
      invariant forall k :: 0 <= k < i ==> ends[k] == tied[k]
    {
      ends[i] := winners[i];
    }
    assert ends[..] == tied;
  }
}
