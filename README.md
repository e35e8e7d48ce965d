# Memory game engine, verified in Dafny

The repository holds two browser memory games. In each, the player turns up two
cards per move. A pair with the same symbol stays up. A pair that differs is
turned back down by a `setTimeout` callback one second later. The game ends when
every card is matched.

- `memory-game-responsive/project6.js` is the single-player game. It has a fixed
  deck of eight fruit pairs, a move counter, a matched-pair counter and an `m:ss`
  clock.
- `memory-game-multiplayer/js/project03.js` is the two-player game. The players
  choose a `rows x cols` grid. The deck takes animal images cyclically from a
  ten-entry palette. Each match credits the current player, and the turn passes
  on every mismatch.

This model drops the DOM. What is left is the card logic:

| file | contents |
|---|---|
| `FisherYates.dfy` | The in-place Durstenfeld shuffle that both games use. `Math.random` is replaced by a caller-supplied swap index `js[i] <= i` for each step. `Shuffled` is the specification function and `Shuffle` is the in-place array method proved against it. |
| `Cards.dfy` | The face of a card (`Down`, `Up`, `Matched`) and the count of matched cards. A CSS `flip`/`flipped` class is `Up`. A `match`/`matched` class is `Matched`: the card stays turned up and can never be selected again. |
| `Responsive.dfy` | `project6.js`. `Session` and the `After…` functions give one transition per event handler. The `Game` class holds the page's variables and its methods are proved equal to those transitions. The lemmas state what each transition promises, and `Inv` is preserved by every event. The clock text is proved to read back as the elapsed seconds. |
| `Multiplayer.dfy` | `project03.js`: the grid-size check, building the deck, the `Table` state with its transitions, and the `Game` class. |

Each mismatch timeout is an explicit method, `FireMismatchTimeout`. It can run
only while a pair is pending. Until it runs, every click is ignored.

Behaviour of the code that the model keeps:

- **An image can lie on more than two cards.** `project03.js` takes palette
  entries cyclically (lines 50-51). From eleven pairs on, an image lies on 4, 6, …
  cards. `Multiplayer.ManyPairsRepeat` shows a 4 x 6 grid with the first image on
  exactly four cards. What always holds is that every image lies on an even
  number of cards (`Multiplayer.ShuffledDeckPaired`). Exactly two per image holds
  up to ten pairs (`Multiplayer.FewPairsTwice`) and for the fixed deck of
  `project6.js`.
- **A click after a win is ignored by the face check.** After a win every card
  is matched. The ordinary test of the clicked card's classes (`project6.js`
  line 100, `project03.js` lines 97-98) then turns every later click away.
  Neither game has a separate completed state.
- **The mismatch callback exists only after a mismatch.** It is scheduled by the
  `else` branch of `checkForMatch`, so `FireMismatchTimeout` requires a pending
  pair.
- **Starting a new game in `project03.js` does not clear the selection.**
  Neither `initializeGame` nor `resetGameInfo` empties `flippedCards` (lines
  45-59, 162-171). The model keeps this. A selected card of an earlier grid
  becomes `Stale(symbol)`: a detached element that keeps its image and is no
  longer on the grid.
  - A pending mismatch of the old grid still blocks clicks until its callback
    runs, and that callback still passes the turn.
  - A single old card can pair with a new card of the same image. That scores a
    pair while only one card of the grid is matched
    (`Multiplayer.StaleMatchScoresOneCard`). The matched count then stays odd
    until the next start (`Multiplayer.OddAfterClick`,
    `Multiplayer.OddAfterTimeout`).
  - The invariant therefore says that the matched cards are twice the scores
    or one fewer. `Multiplayer.CompleteByScores` gives the exact equation when
    the matched count is even.
- **Completion means every card is matched.** Matching one pair does not end a
  game that has more pairs (`Multiplayer.ClickMatch`,
  `Responsive.WonIffAllMatched`).

## Model

| member | source | states |
|---|---|---|
| FisherYates.Shuffle | memory-game-responsive/project6.js:32-38 | The shuffle works in place and returns the same array. The new contents are the specification shuffle of the old contents under the supplied swap indices, so they are a permutation of the old contents. |
| FisherYates.Swap | memory-game-responsive/project6.js:35 | The destructuring swap exchanges positions `i` and `j` and keeps every other position. |
| FisherYates.ShuffledPermutes | memory-game-multiplayer/js/project03.js:61-67 | For every valid swap-index sequence, the shuffled deck has the input's length and its multiset of elements. |
| FisherYates.Steps | memory-game-multiplayer/js/project03.js:62-65 | The deck after the loop has run from position `i` down to 1 keeps its length. A loop that starts at position 0 or below does nothing. |
| FisherYates.Shuffled | memory-game-multiplayer/js/project03.js:61-67 | The shuffled deck keeps its length. A deck of at most one card comes back unchanged, since the loop body never runs. |
| FisherYates.StepsPermutes | memory-game-multiplayer/js/project03.js:62-65 | Each run of the descending loop, from any position down to 1, keeps length and multiset. This is the induction behind the permutation property. |
| Cards.MatchedCount | memory-game-multiplayer/js/project03.js:127 | The number of cards with the matched class. It is zero exactly when no card is matched. |
| Cards.AllDown | memory-game-multiplayer/js/project03.js:69-85 | A freshly built grid has `n` face-down cards and no matched card. |
| Cards.MatchedCountUpdate | memory-game-multiplayer/js/project03.js:118-119 | Changing the face of one card changes the matched count by exactly what that card leaves and enters. |
| Cards.AllMatchedIff | memory-game-multiplayer/js/project03.js:127 | The matched count never exceeds the number of cards. It equals the number of cards exactly when every card is matched. |
| Responsive.InitialDeckPairs | memory-game-responsive/project6.js:9-12 | The declared deck has 16 cards, with each of the eight fruits on exactly two. |
| Responsive.AdjacentPair | memory-game-responsive/project6.js:9-12 | A value that lies on two neighbouring positions of a deck, and nowhere else, occurs exactly twice. |
| Responsive.MinutesAndSeconds | memory-game-responsive/project6.js:89-90 | `minutes * 60 + seconds == secondsElapsed` and `seconds < 60`. |
| Responsive.Decimal | memory-game-responsive/project6.js:91 | `toString` of a natural number is a non-empty digit string, with one digit exactly below 10 and no leading zero from 10 on. |
| Responsive.PadTwo | memory-game-responsive/project6.js:91 | `padStart(2, "0")` adds leading zeros up to two characters and keeps longer text unchanged. |
| Responsive.TimerText | memory-game-responsive/project6.js:91 | The timer text is the minutes, a colon and two characters: digits before the colon and two digits after it. |
| Responsive.StartText | memory-game-responsive/project6.js:46 | The `"0:00"` that a start writes to the timer is exactly the timer text of zero elapsed seconds. |
| Responsive.ColonSplit | memory-game-responsive/project6.js:91 | The template `${minutes}:${seconds}` with a two-character seconds part splits back into its two parts around the colon. |
| Responsive.ReadClock | memory-game-responsive/project6.js:89-91 | Any text of digits, a colon and two digits below 60 reads as that many minutes and seconds. |
| Responsive.DecimalValue | memory-game-responsive/project6.js:91 | The decimal text of `n` reads back as `n`. |
| Responsive.SecondsText | memory-game-responsive/project6.js:90-91 | The seconds part of the clock is always exactly two digits and denotes the seconds. |
| Responsive.ReadTimerText | memory-game-responsive/project6.js:89-91 | The `m:ss` text reads back as exactly the elapsed seconds, so the display loses nothing. |
| Responsive.Initialized | memory-game-responsive/project6.js:40-53 | `initializeGame` builds a grid of `n` face-down cards with nothing matched. It empties the selection, zeroes `matchedPairs`, `moves` and `secondsElapsed`, and sets `gameStarted` and the timer. |
| Responsive.TurnedUp | memory-game-responsive/project6.js:100-106 | Turning up card `k` gives it the `flip` class and changes no other card. It appends `k` to the selection and counts a move exactly when this is the second card. `matchedPairs` is unchanged. |
| Responsive.AfterFlip | memory-game-responsive/project6.js:95-110 | A click keeps the grid size, `gameStarted` and the elapsed seconds. It adds at most one move and at most one matched pair. |
| Responsive.AfterCheck | memory-game-responsive/project6.js:112-137 | Comparing the two selected cards keeps the grid size, the moves and `gameStarted`. The selection empties exactly when the fruits are equal, and then `matchedPairs` goes up by one. The win is reported exactly when the fruits are equal and the game is then won. |
| Responsive.AfterTimeout | memory-game-responsive/project6.js:132-136 | The mismatch callback turns both selected cards face down and empties the selection. `matchedPairs` and `moves` are unchanged. |
| Responsive.LoadedInv | memory-game-responsive/project6.js:9-30 | The state at page load, with no grid, nothing selected, zero counters and the game not started, satisfies the invariant on any deck of eight pairs. |
| Responsive.TurnedUpConsistent | memory-game-responsive/project6.js:100-106 | Turning up a face-down card keeps the bookkeeping consistent. After the first card, the full invariant holds. |
| Responsive.InitializedInv | memory-game-responsive/project6.js:40-53 | After a start or restart on the reshuffled deck, the invariant holds: every fruit is still on two cards, all cards are face down and the counters are zero. |
| Responsive.CheckInv | memory-game-responsive/project6.js:112-137 | Resolving the second card leaves no compared pair pending unless it is a mismatch. Matched cards stay twice the matched pairs. |
| Responsive.MatchInv | memory-game-responsive/project6.js:117-130 | A matching pair keeps the invariant: both cards matched, no card left turned up, the selection empty and matched cards twice the counted pairs. |
| Responsive.MatchingLeavesNoneUp | memory-game-responsive/project6.js:117-122 | When only the two selected cards are turned up, marking both matched leaves no card turned up. |
| Responsive.FlipInv | memory-game-responsive/project6.js:95-110 | Every click keeps the invariant. |
| Responsive.TimeoutInv | memory-game-responsive/project6.js:132-136 | The mismatch callback keeps the invariant. |
| Responsive.FlipIgnored | memory-game-responsive/project6.js:96-100 | A click changes nothing exactly when the game has not started, two cards are pending, or the card is already turned up or matched. |
| Responsive.FlipFirst | memory-game-responsive/project6.js:100-103 | The first card of a pair is turned up and selected, and no move is counted. |
| Responsive.FlipSecond | memory-game-responsive/project6.js:104-136 | The second card counts exactly one move. On equal fruits, both cards become matched, the pair is counted and the selection empties at once. On different fruits, both stay up and selected. |
| Responsive.MatchedStays | memory-game-responsive/project6.js:117-119 | A matched card stays matched through every click and every mismatch callback. |
| Responsive.TimeoutRestores | memory-game-responsive/project6.js:131-136 | The mismatch callback turns down exactly the two pending cards and empties the selection. No other card, counter or flag changes. |
| Responsive.WonIffAllMatched | memory-game-responsive/project6.js:124 | `matchedPairs == cards.length / 2` holds exactly when every card of the grid is matched. Moves are never fewer than matched pairs. |
| Responsive.FlipReportsWin | memory-game-responsive/project6.js:121-130 | A click reports the win exactly when it takes the game from not won to won. |
| Responsive.Game.constructor | memory-game-responsive/project6.js:9-30 | The page loads with the declared deck, an empty grid, zero counters and the game not started. |
| Responsive.Game.InitializeGame | memory-game-responsive/project6.js:40-53 | Start and restart shuffle the deck array in place and build a face-down grid. They reset the selection, `matchedPairs`, `moves` and `secondsElapsed` to empty or zero, and set the timer. |
| Responsive.Game.StartTimer | memory-game-responsive/project6.js:84-86 | Starting the timer sets the elapsed seconds to zero and the interval running. |
| Responsive.Game.Tick | memory-game-responsive/project6.js:87-92 | Each tick adds one second. The text it shows is the timer text of the new elapsed seconds, and it reads back as those seconds. |
| Responsive.Game.FlipCard | memory-game-responsive/project6.js:95-110 | The click handler performs the click transition and keeps the invariant. |
| Responsive.Game.CheckForMatch | memory-game-responsive/project6.js:112-131 | The comparison marks a matching pair and stops the timer on the last pair, or leaves a mismatch pending. |
| Responsive.Game.FireMismatchTimeout | memory-game-responsive/project6.js:132-136 | The deferred step runs only with a pending pair. It performs the callback transition and keeps the invariant. |
| Multiplayer.ValidGrid | memory-game-multiplayer/js/project03.js:36 | The start button's size check. A grid that passes it has between 4 and 100 cards, an even number of them. |
| Multiplayer.Cycled | memory-game-multiplayer/js/project03.js:49-52 | The `n` selected images all come from the palette. Up to ten pairs they are the first `n` palette entries in order. |
| Multiplayer.PairedDeck | memory-game-multiplayer/js/project03.js:54 | `[...selectedImages, ...selectedImages]` has `2 * n` cards and holds each selected image twice as often as the selection does. |
| Multiplayer.PairedHalves | memory-game-multiplayer/js/project03.js:54 | Both halves of the unshuffled deck are the selected images, card for card. |
| Multiplayer.ShuffledDeck | memory-game-multiplayer/js/project03.js:46-55 | The selection loop, the spread copy and the in-place shuffle yield the specification shuffle of the paired deck, a permutation of it. |
| Multiplayer.SelectImages | memory-game-multiplayer/js/project03.js:49-52 | The push loop yields `uniquePairs` images, with position `i` holding palette entry `i % 10`. |
| Multiplayer.PairedDeckShape | memory-game-multiplayer/js/project03.js:46-54 | The unshuffled deck has `2 * uniquePairs` cards. Position `i` holds `animalImages[i % 10]` and position `i + uniquePairs` repeats it. |
| Multiplayer.ShuffledDeckEven | memory-game-multiplayer/js/project03.js:54-55 | After any shuffle, each image lies on twice as many cards as there are pairs showing it. |
| Multiplayer.ShuffledDeckPaired | memory-game-multiplayer/js/project03.js:55 | After any shuffle, the deck has `rows * cols` cards and every image in it lies on an even number of them. |
| Multiplayer.PaletteDistinct | memory-game-multiplayer/js/project03.js:26-29 | The ten palette entries are pairwise different. |
| Multiplayer.FewPairsTwice | memory-game-multiplayer/js/project03.js:50-54 | With at most ten pairs, every selected image lies on exactly two cards. |
| Multiplayer.CycledWraps | memory-game-multiplayer/js/project03.js:50-51 | For ten to twenty pairs, the selected images are the whole palette followed by its first `n - 10` entries again. |
| Multiplayer.FirstOccursTwice | memory-game-multiplayer/js/project03.js:50-51 | In a list without repeats followed by a non-empty prefix of itself, the first entry occurs exactly twice. |
| Multiplayer.WrappedTwice | memory-game-multiplayer/js/project03.js:50-54 | For eleven to twenty pairs, the unshuffled deck holds the first image on exactly four cards. |
| Multiplayer.ManyPairsRepeat | memory-game-multiplayer/js/project03.js:50-51 | A 4 x 6 grid passes the size check and shows the first image on exactly four cards: positions 0, 10, 12 and 22. |
| Multiplayer.DetachAll | memory-game-multiplayer/js/project03.js:45-59 | Rebuilding the grid keeps the selection's length. Every selected card becomes a detached element with the image it showed. |
| Multiplayer.GameInfoReset | memory-game-multiplayer/js/project03.js:162-167 | `resetGameInfo` zeroes `moves`, sets the scores to `[0, 0]`, gives the turn to player 0 and clears `timerStarted`. The deck, the grid, the selection, the grid sizes and whether a game is shown are unchanged. |
| Multiplayer.AfterInitialize | memory-game-multiplayer/js/project03.js:45-59 | `initializeGame` lays out `rows * cols` face-down cards with nothing matched and resets the game information. The selection keeps its length and holds only detached cards. The grid sizes and whether a game is shown are unchanged. |
| Multiplayer.AfterStart | memory-game-multiplayer/js/project03.js:31-43 | The start button records the requested sizes. It starts a game, and reports so, exactly when the grid passes the size check. |
| Multiplayer.AfterRestart | memory-game-multiplayer/js/project03.js:173-178 | The restart button hides the game and resets the game information: zero moves, scores `[0, 0]`, player 0 to move and `timerStarted` cleared. The deck, the grid, the selection and the grid sizes stay as they were. |
| Multiplayer.TurnedUp | memory-game-multiplayer/js/project03.js:104-110 | Turning up card `k` gives it the `flipped` class and changes no other card. It appends the card to the selection and counts a move exactly when this is the second card. Deck, scores and turn are unchanged. |
| Multiplayer.AfterClick | memory-game-multiplayer/js/project03.js:88-112 | Every click leaves `timerStarted` set. It keeps the deck, the grid size and the turn, and adds at most one move and at most one point to the two scores together. |
| Multiplayer.AfterCheck | memory-game-multiplayer/js/project03.js:114-142 | Comparing the two selected cards keeps the deck, the grid size, the moves and the turn. The selection empties exactly when the symbols are equal, and then the scores together go up by one. A win is reported only on equal symbols. |
| Multiplayer.AfterTimeout | memory-game-multiplayer/js/project03.js:132-140 | The mismatch callback empties the selection and passes the turn to the other player, 0 or 1. Deck, grid size, scores and moves are unchanged. |
| Multiplayer.LoadedInv | memory-game-multiplayer/js/project03.js:13-24 | The state at page load satisfies the invariant. |
| Multiplayer.TurnedUpConsistent | memory-game-multiplayer/js/project03.js:104-105 | Turning up a face-down card keeps the bookkeeping consistent. After the first card, the full invariant holds. |
| Multiplayer.StartInv | memory-game-multiplayer/js/project03.js:31-43 | The start button keeps the invariant for any requested grid. |
| Multiplayer.StartOutcome | memory-game-multiplayer/js/project03.js:34-42 | A grid is accepted exactly when `2 <= rows <= 10`, `2 <= cols <= 10` and `rows * cols` is even. On acceptance, the deck is a permutation of the paired deck with `rows * cols` cards, all cards are face down and the game information is reset. The selection keeps its length but holds only detached cards. On refusal, only the sizes are recorded. |
| Multiplayer.RestartInv | memory-game-multiplayer/js/project03.js:173-178 | The restart button keeps the invariant. |
| Multiplayer.MatchBoth | memory-game-multiplayer/js/project03.js:117-120 | Marking a selected pair matched leaves no card turned up. It adds one matched card per selected card of the current grid. |
| Multiplayer.CheckInv | memory-game-multiplayer/js/project03.js:114-141 | Resolving the second card keeps the invariant. Two pending cards are always a mismatch. |
| Multiplayer.ClickInv | memory-game-multiplayer/js/project03.js:88-112 | Every click keeps the invariant. |
| Multiplayer.TimeoutInv | memory-game-multiplayer/js/project03.js:132-140 | The mismatch callback keeps the invariant. |
| Multiplayer.ClickIgnored | memory-game-multiplayer/js/project03.js:91-102 | Every click starts the timer. A click on a turned-up or matched card, or any click while two are pending, changes nothing else, and only those clicks do. |
| Multiplayer.ClickMoves | memory-game-multiplayer/js/project03.js:104-110 | A move is counted exactly when the selection reaches two cards. The selection never holds more than two. |
| Multiplayer.ClickMatch | memory-game-multiplayer/js/project03.js:117-130 | On equal symbols, both cards become matched and the selection empties. The current player's score goes up by one, the other's stays, and the turn stays. The game is over exactly when every card is matched. |
| Multiplayer.ClickMismatch | memory-game-multiplayer/js/project03.js:131-132 | On different symbols, both cards stay up and selected. Scores and turn are unchanged until the callback runs. |
| Multiplayer.TimeoutOutcome | memory-game-multiplayer/js/project03.js:132-140 | The callback turns both pending cards of the grid face down and empties the selection. It toggles `currentPlayer` between 0 and 1 and leaves moves and scores unchanged. |
| Multiplayer.StaleMatchScoresOneCard | memory-game-multiplayer/js/project03.js:45-59 | A card left in the selection from an earlier grid pairs with a new card of the same image. The pair is scored, but only one card of the grid becomes matched. |
| Multiplayer.CompleteByScores | memory-game-multiplayer/js/project03.js:118-127 | An even matched count stands for "no pair of this game was completed by a detached card"; after such a pair the count stays odd until the next start. With an even count, the matched cards equal `2 * (playerScores[0] + playerScores[1])`. Completion, meaning that count equals `cards.length`, holds exactly when every card is matched. |
| Multiplayer.OddAfterClick | memory-game-multiplayer/js/project03.js:88-130 | Once the scores stand one card ahead of the matched cards, every click of the same game keeps them one card ahead, so the matched count stays odd. |
| Multiplayer.OddAfterTimeout | memory-game-multiplayer/js/project03.js:132-140 | The mismatch callback keeps the scores one card ahead of the matched cards. |
| Multiplayer.Game.constructor | memory-game-multiplayer/js/project03.js:13-24 | The page loads with a 4 x 4 default, no grid, zero moves and scores, and player 0 to move. |
| Multiplayer.Game.StartGame | memory-game-multiplayer/js/project03.js:31-43 | The start handler performs the start transition and keeps the invariant. |
| Multiplayer.Game.InitializeGame | memory-game-multiplayer/js/project03.js:45-59 | Builds the palette deck, shuffles it in place and lays out a face-down grid. It detaches the old selection and resets the game information, which is the initialize transition. |
| Multiplayer.Game.ResetGameInfo | memory-game-multiplayer/js/project03.js:162-171 | Sets `moves` to 0, the scores to `[0, 0]`, `currentPlayer` to 0 and `timerStarted` to false. Nothing else changes, and the selection is not cleared. |
| Multiplayer.Game.Restart | memory-game-multiplayer/js/project03.js:173-178 | Returns to the welcome form with the game information reset, keeping the invariant. |
| Multiplayer.Game.HandleCardClick | memory-game-multiplayer/js/project03.js:88-112 | The click handler performs the click transition and keeps the invariant. |
| Multiplayer.Game.CheckForMatch | memory-game-multiplayer/js/project03.js:114-142 | The comparison scores a matching pair for the current player, or leaves a mismatch pending. |
| Multiplayer.Game.FireMismatchTimeout | memory-game-multiplayer/js/project03.js:132-140 | The deferred step runs only with a pending pair. It performs the callback transition and keeps the invariant. |

## Left out

- Rendering is not modelled. This covers building card elements, `innerHTML`, the grid template, card images and emoji spans, the `fruitDanceMap` animation classes and `updatePlayerDisplay`. Card state is the `Face` of each card instead of its CSS classes.
- `alert`, `triggerConfetti` and the 500 ms delay before the single-player win message are side effects only.
- `adjustGridSize`, `handleResize` and `generateFruitBorder` are left out. They are floating-point pixel geometry with random fruit choices.
- `Math.random` is replaced by caller-supplied swap indices. No claim is made about uniformity.
- Real time is not modelled. The one-second mismatch delay is the explicit method `FireMismatchTimeout`, and an interval tick in `project6.js` is the method `Tick`.
- In `project6.js`, a restart drops a pending mismatch. The race in which that old callback later empties the selection of the new game is not modelled.
- The elapsed-time counter of `project03.js` (lines 149-156) is not modelled. Only the `timerStarted` flag is kept.
- `formatTime` (`project03.js` lines 158-160) depends on `Date.toISOString`, a library call that is not part of this model.
- Reading the grid size with `parseInt`, including its NaN case, is not modelled. `rows` and `cols` are taken as integers.
- Multiplayer.Game.StartGame and Multiplayer.Game.HandleCardClick take the start button to be pressed only while the welcome form is shown (`!inGame`), and cards to be clicked only while the game container is shown (`inGame`). The handlers have no such guard of their own. The `hidden` class (`project03.js` lines 37-38, 174-175) is taken to remove the other container from interaction; the CSS that does so is not part of this model.
- Responsive.Game.FlipCard and Multiplayer.Game.HandleCardClick require the clicked index to be a card of the current grid, because clicks only come from card elements of the grid.
