# Set card game dealer: deck, end of game and winner announcement

This project models three pieces of the dealer in a multiplayer Set card game:

- The initial deck. When the dealer is built, the deck holds the card ids
  `0, 1, ..., deckSize - 1` in order.
- The end-of-game test `shouldFinish`. The game ends when termination was
  requested, or when the external set-finder, asked for at least one set in
  the deck, returns an empty list.
- The winner announcement `announceWinners`. It makes one pass over the
  players' scores. It keeps a running maximum (`maxScore`, starting at -1)
  and a count of players seen with it (`numOfEqualScores`). It stores player
  ids in an `int[] winners` and hands the first `numOfEqualScores` entries of
  that array to the UI.

Everything is in one module, `Dealer` (`dealer.dfy`).

- Scores are an input array: `scores[i]` is `players[i].getScore()`. The
  number of players `env.config.players` is taken to be `scores.Length`.
- The UI call `env.ui.announceWinner` is left out. The method instead returns
  the array that would have been announced.
- A Java `ArrayIndexOutOfBoundsException` becomes the result
  `IndexOutOfBounds(index)`.
- Java zero-fills `new int[n]`, so the model allocates with `new int[n](_ => 0)`.
- The set-finder `env.util.findSets` is a function parameter (`SetFinder`).
  Nothing is assumed about it, except in the one lemma that says so in its
  `requires`.

The announcement is described against reference definitions that do not copy
the loop:

- `MaxScore`: the highest score.
- `IndicesOf(scores, v)`: the ids holding score `v`, in increasing order.
- `Winners`: the ids holding `MaxScore`.

With two or more players, the loop as written announces `[0] + Winners(scores)[1..]`, not `Winners(scores)` (with fewer it throws, see below):

- `winners[0]` is never written.
- The first strictly higher score puts its id at `winners[1]`, and a later tie
  overwrites that entry (`Dealer.java:156,162`).

The intended result for scores `[2, 3, 3, 1]` is `[1, 2]`, every player with
the maximum score. The code announces `[0, 2]`. The model follows the code
(`Dealer.AnnounceWinners`). The evidently intended loop is modelled beside it
(`Dealer.AnnounceWinnersCorrected`).

## Model

| member | source | states |
|---|---|---|
| `Dealer.InitialDeck` | Set_Card_Game/Set_Card_Game/src/main/java/bguspl/set/ex/Dealer.java:46 | The deck built by the constructor has `deckSize` cards (none when `deckSize <= 0`), and position `i` holds card `i`. |
| `Dealer.LemmaInitialDeckHoldsEachCardOnce` | Set_Card_Game/Set_Card_Game/src/main/java/bguspl/set/ex/Dealer.java:46 | The initial deck holds exactly the card ids in `[0, deckSize)`, and no card appears twice. |
| `Dealer.ShouldFinish` | Set_Card_Game/Set_Card_Game/src/main/java/bguspl/set/ex/Dealer.java:101-103 | `shouldFinish` holds whenever termination was requested, whatever the set-finder returns. Without termination it holds exactly when the set-finder, asked for one set of the deck, returns none. |
| `Dealer.LemmaShouldFinishMeansTerminateOrNoSetLeft` | Set_Card_Game/Set_Card_Game/src/main/java/bguspl/set/ex/Dealer.java:101-103 | Take a set-finder that finds something exactly when three cards of the deck form a set. Then without termination, `shouldFinish` holds exactly when no set is left in the deck. |
| `Dealer.MaxScore` | Set_Card_Game/Set_Card_Game/src/main/java/bguspl/set/ex/Dealer.java:153-164 | The maximum found by scanning the players in order. It is at least the first and the last score (its full characterisation is the next row). |
| `Dealer.LemmaMaxScoreIsMaximum` | Set_Card_Game/Set_Card_Game/src/main/java/bguspl/set/ex/Dealer.java:153-164 | The maximum the scan computes is the score of some player, and no player has more. |
| `Dealer.LemmaMaxScoreSnoc` | Set_Card_Game/Set_Card_Game/src/main/java/bguspl/set/ex/Dealer.java:159-161 | One more player raises the maximum exactly when that player's score is higher. |
| `Dealer.IndicesOf` | Set_Card_Game/Set_Card_Game/src/main/java/bguspl/set/ex/Dealer.java:154-158 | The ids of the players holding a given score, in scan order. There are never more of them than players (the rows below characterise the list exactly). |
| `Dealer.LemmaIndicesOfSnoc` | Set_Card_Game/Set_Card_Game/src/main/java/bguspl/set/ex/Dealer.java:155-157 | One more player with the wanted score adds its id at the end of the list of holders. Otherwise the list is unchanged. |
| `Dealer.LemmaIndicesOfSound` | Set_Card_Game/Set_Card_Game/src/main/java/bguspl/set/ex/Dealer.java:154-158 | Every id in the list of holders is a player with that score. |
| `Dealer.LemmaIndicesOfSorted` | Set_Card_Game/Set_Card_Game/src/main/java/bguspl/set/ex/Dealer.java:154-158 | The ids are listed in strictly increasing order, which is the order of the scan. |
| `Dealer.LemmaIndicesOfComplete` | Set_Card_Game/Set_Card_Game/src/main/java/bguspl/set/ex/Dealer.java:154-158 | Every player with the score is listed. |
| `Dealer.LemmaIndicesOfAbsent` | Set_Card_Game/Set_Card_Game/src/main/java/bguspl/set/ex/Dealer.java:159-162 | A score nobody holds has no holders. So a strictly higher score starts a fresh tie list. |
| `Dealer.LemmaIndicesOfCounts` | Set_Card_Game/Set_Card_Game/src/main/java/bguspl/set/ex/Dealer.java:152-163 | The number of holders of a score is how often that score occurs among the scores. This is what `numOfEqualScores` counts. |
| `Dealer.LemmaMaxScoreHeld` | Set_Card_Game/Set_Card_Game/src/main/java/bguspl/set/ex/Dealer.java:159-163 | At least one player holds the maximum, so `numOfEqualScores >= 1` once a player has been seen. |
| `Dealer.Winners` | Set_Card_Game/Set_Card_Game/src/main/java/bguspl/set/ex/Dealer.java:146-149 | The intended winners, that is, every player with the maximum score. The list is non-empty when there is a player. |
| `Dealer.LemmaWinnersAreTheMaxScorers` | Set_Card_Game/Set_Card_Game/src/main/java/bguspl/set/ex/Dealer.java:146-149 | An id is a winner exactly when that player has the maximum score. Winners are listed once each, in increasing order. There are between 1 and `players` of them, as many as the maximum occurs. |
| `Dealer.LemmaScanFirst` | Set_Card_Game/Set_Card_Game/src/main/java/bguspl/set/ex/Dealer.java:159-162 | After the first player, the maximum is that player's score and the tie list is `[0]`. |
| `Dealer.LemmaScanStep` | Set_Card_Game/Set_Card_Game/src/main/java/bguspl/set/ex/Dealer.java:154-163 | One iteration of the scan. An equal score joins the tie list (line 155). A higher score makes itself the maximum and starts a one-id list (line 159). A lower score changes nothing. |
| `Dealer.LemmaScannedStep` | Set_Card_Game/Set_Card_Game/src/main/java/bguspl/set/ex/Dealer.java:152-163 | The loop invariant is kept by each iteration. The running maximum and tie list match `MaxScore` and `IndicesOf` on the players seen so far. The tie list has at most `i` ids. The first (non-negative) score is always strictly above -1. |
| `Dealer.LemmaScannedAll` | Set_Card_Game/Set_Card_Game/src/main/java/bguspl/set/ex/Dealer.java:154-164 | After the whole scan, the tie list is exactly `Winners`. |
| `Dealer.AnnouncedAsWritten` | Set_Card_Game/Set_Card_Game/src/main/java/bguspl/set/ex/Dealer.java:149-170 | What `announceWinners` ends in. With no player it throws at index 0, with one player at index 1. With two or more players it announces as many ids as there are maximum scorers, and the first one is 0. |
| `Dealer.LemmaAnnouncedShape` | Set_Card_Game/Set_Card_Game/src/main/java/bguspl/set/ex/Dealer.java:151-168 | With two or more players, the code announces as many ids as there are maximum scorers, between 1 and `players`. The first id is always 0. Ids 1.. are the 2nd, 3rd, ... maximum scorers. The whole list strictly increases, so no id is announced twice. |
| `Dealer.LemmaFirstMaxScorerDropped` | Set_Card_Game/Set_Card_Game/src/main/java/bguspl/set/ex/Dealer.java:154-168 | When player 0 does not have the maximum score, the first player that does is never announced. |
| `Dealer.LemmaPlayerZeroFirstWinner` | Set_Card_Game/Set_Card_Game/src/main/java/bguspl/set/ex/Dealer.java:154-163 | When player 0 has the maximum score, it is the first winner. |
| `Dealer.LemmaAnnouncedIsWinnersIff` | Set_Card_Game/Set_Card_Game/src/main/java/bguspl/set/ex/Dealer.java:151-168 | With two or more players, the announcement is exactly the list of all maximum scorers if and only if player 0 is one of them. |
| `Dealer.LemmaTieExamplePrefix` | Set_Card_Game/Set_Card_Game/src/main/java/bguspl/set/ex/Dealer.java:154-163 | For scores `[2, 3, 3]`, the scan ends with maximum 3 and tie list `[1, 2]`. |
| `Dealer.LemmaTieExampleWinners` | Set_Card_Game/Set_Card_Game/src/main/java/bguspl/set/ex/Dealer.java:154-164 | The maximum scorers of `[2, 3, 3, 1]` are players 1 and 2. |
| `Dealer.LemmaTieExampleAsWritten` | Set_Card_Game/Set_Card_Game/src/main/java/bguspl/set/ex/Dealer.java:149-170 | For scores `[2, 3, 3, 1]` the intended winners are `[1, 2]`, but the code announces `[0, 2]`. |
| `Dealer.LemmaSinglePlayerAsWritten` | Set_Card_Game/Set_Card_Game/src/main/java/bguspl/set/ex/Dealer.java:151-162 | With one player, that player is the only winner, but the write `winners[1] = i` into a one-element array throws. |
| `Dealer.AnnounceWinners` | Set_Card_Game/Set_Card_Game/src/main/java/bguspl/set/ex/Dealer.java:149-170 | `announceWinners` as written, on non-negative scores. With no player, the copy loop reads `winners[0]` of an empty array (index 0). With one player, the first score is written to `winners[1]` (index 1). Otherwise the announced array is `[0]` followed by every maximum scorer except the first. Every tie-branch write `winners[numOfEqualScores]` is proved in bounds. |
| `Dealer.AnnounceWinnersCorrected` | Set_Card_Game/Set_Card_Game/src/main/java/bguspl/set/ex/Dealer.java:149-170 | The same two loops with the tie list starting at `winners[0]`. For any number of players, the announced array is exactly every player with the maximum score, in id order. |

## Left out

- Player thread creation and the dealer's main loop `run` (`Dealer.java:53-73`): thread plumbing and logging, not sequential logic.
- `timerLoop` (`Dealer.java:79-87`): it is driven by wall-clock time and by UI countdown calls.
- `terminate`, `removeCardsFromTable`, `sleepUntilWokenOrTimeout`, `updateTimerDisplay` and `removeAllCardsFromTable` (`Dealer.java:92-144`): their bodies are empty, so there is no behaviour to model.
- `placeCardsOnTable` (`Dealer.java:115-122`): a stub that keeps calling `table.placeCard(0, 0)`. Its termination depends on `Table`, and Table.java is not part of this model.
- `env.ui.announceWinner`, `env.logger` and `env.config`: UI, logging and configuration calls. The announced array is returned instead, and the player count is the length of the score array.
- `env.util.findSets`, the combinatorial set-finder: it is an uninterpreted function parameter. Java's short-circuit `||` skips the call when `terminate` holds, and a total function parameter has no observable call to skip.
- The `volatile terminate` flag and all dealer/player synchronisation: `terminate` is an input of `ShouldFinish`.
- Dealer.AnnounceWinners: requires every score to be non-negative, which holds in the game because a score starts at 0 and only grows (Player.java is not part of this model). A negative score could tie with the initial -1 sentinel, and that case is not modelled.
- Dealer.AnnounceWinnersCorrected: requires non-negative scores for the same reason.
- The deck is a value (`seq<int>`), not the mutable `List<Integer>`, because the modelled code only builds it and reads it.

## Findings

| source | as written | input that shows it | evidently intended | confidence | as-written member | corrected member |
|---|---|---|---|---|---|---|
| Set_Card_Game/Set_Card_Game/src/main/java/bguspl/set/ex/Dealer.java:162 | A higher score stores its id at `winners[1]` and resets the count to 1. `winners[0]` is never written, so the first announced id is always 0, and the first maximum scorer is lost when a tie overwrites `winners[1]`. | scores `[2, 3, 3, 1]` announce `[0, 2]` | announce every maximum scorer, `[1, 2]` | high; proved about the model, not executed | `Dealer.AnnounceWinners`, `Dealer.LemmaTieExampleAsWritten` | `Dealer.AnnounceWinnersCorrected` |
| Set_Card_Game/Set_Card_Game/src/main/java/bguspl/set/ex/Dealer.java:151-162 | With one player, `winners` has length 1, and the first score (always above -1) is written to `winners[1]`. | one player with score 0 | announce `[0]` | high; proved about the model, not executed | `Dealer.AnnounceWinners`, `Dealer.LemmaSinglePlayerAsWritten` | `Dealer.AnnounceWinnersCorrected` |
