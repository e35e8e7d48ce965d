/** The two-player game of memory-game-multiplayer/js/project03.js: a grid
    of `rows * cols` animal cards chosen by the players, a move counter, one
    score per player and a turn that passes on every mismatch. */
module Multiplayer {
  import opened Cards
  import FisherYates

  /** The palette of card images, taken cyclically when a grid needs more
      than ten pairs. */
  const AnimalImages: seq<string> := [
    "cat.png", "dog.png", "elephant.png", "fox.png", "lion.png",
    "monkey.png", "panda.png", "rabbit.png", "tiger.png", "zebra.png"
  ]

  /** The grid-size check of the start button: both sides between 2 and 10
      and an even number of cards. */
  predicate ValidGrid(rows: int, cols: int): (ok: bool)
    ensures ok ==> 4 <= rows * cols <= 100 && 2 * (rows * cols / 2) == rows * cols
  {
    2 <= rows <= 10 && 2 <= cols <= 10 && (rows * cols) % 2 == 0
  }

  // ---------------------------------------------------------------------
  // Building the deck.

  /** The images of `n` pairs: palette entries in order, starting over after
      the tenth. */
  function Cycled(n: nat): (r: seq<string>)
    ensures |r| == n && forall x :: x in r ==> x in AnimalImages
    ensures n <= |AnimalImages| ==> r == AnimalImages[..n]
  {
    seq(n, i => AnimalImages[i % |AnimalImages|])
  }

  /** The deck before the shuffle: the selected images followed by a copy. */
  function PairedDeck(n: nat): (r: seq<string>)
    ensures |r| == 2 * n
    ensures multiset(r) == multiset(Cycled(n)) + multiset(Cycled(n))
  {
    Cycled(n) + Cycled(n)
  }

  /** The second half of the unshuffled deck repeats the first, card for card. */
  lemma PairedHalves(n: nat)
    ensures PairedDeck(n)[..n] == PairedDeck(n)[n..] == Cycled(n)
  {
    var d := PairedDeck(n);
    assert d[..n] == Cycled(n);
    assert d[n..] == Cycled(n);
  }

  /** The loop that pushes one palette entry per pair. */
  method SelectImages(uniquePairs: nat) returns (selectedImages: seq<string>)
    ensures |selectedImages| == uniquePairs
    ensures forall i :: 0 <= i < uniquePairs ==> selectedImages[i] == AnimalImages[i % |AnimalImages|]
  {
    selectedImages := [];
    for i := 0 to uniquePairs
      invariant |selectedImages| == i
      invariant forall j :: 0 <= j < i ==> selectedImages[j] == AnimalImages[j % |AnimalImages|]
    {
      selectedImages := selectedImages + [AnimalImages[i % |AnimalImages|]];
    }
  }

  /** The cards `initializeGame` lays out: the selected images and a copy of
      them, shuffled in place in an array. */
  method ShuffledDeck(uniquePairs: nat, draws: seq<nat>) returns (deck: seq<string>)
    requires FisherYates.IsSwapSequence(draws, 2 * uniquePairs)
    ensures deck == FisherYates.Shuffled(PairedDeck(uniquePairs), draws)
    ensures multiset(deck) == multiset(PairedDeck(uniquePairs))
  {
    var selectedImages := SelectImages(uniquePairs);
    assert selectedImages == Cycled(uniquePairs) by {
      forall i | 0 <= i < uniquePairs ensures selectedImages[i] == Cycled(uniquePairs)[i] { }
    }
    var cardPairs := selectedImages + selectedImages;
    var cardArray := new string[|cardPairs|](i requires 0 <= i < |cardPairs| => cardPairs[i]);
    assert cardArray[..] == PairedDeck(uniquePairs);
    cardArray := FisherYates.Shuffle(cardArray, draws);
    deck := cardArray[..];
  }

  /** The unshuffled deck has two cards per pair; position `i` of the first
      half holds palette entry `i % 10` and position `i + n` repeats it. */
  lemma PairedDeckShape(n: nat)
    ensures |PairedDeck(n)| == 2 * n
    ensures forall i :: 0 <= i < n ==>
              PairedDeck(n)[i] == AnimalImages[i % 10] && PairedDeck(n)[i + n] == PairedDeck(n)[i]
  {
  }

  /** After any shuffle every image lies on an even number of cards: twice as
      many as there are pairs showing it. */
  lemma ShuffledDeckEven(n: nat, draws: seq<nat>, x: string)
    requires FisherYates.IsSwapSequence(draws, 2 * n)
    ensures |FisherYates.Shuffled(PairedDeck(n), draws)| == 2 * n
    ensures multiset(FisherYates.Shuffled(PairedDeck(n), draws))[x] == 2 * multiset(Cycled(n))[x]
  {
    FisherYates.ShuffledPermutes(PairedDeck(n), draws);
  }

  /** Every image of a shuffled deck lies on an even number of its cards. */
  lemma ShuffledDeckPaired(n: nat, draws: seq<nat>)
    requires FisherYates.IsSwapSequence(draws, 2 * n)
    ensures var deck := FisherYates.Shuffled(PairedDeck(n), draws);
      |deck| == 2 * n && forall x :: x in deck ==> multiset(deck)[x] % 2 == 0
  {
    var deck := FisherYates.Shuffled(PairedDeck(n), draws);
    ShuffledDeckEven(n, draws, "");
    forall x | x in deck ensures multiset(deck)[x] % 2 == 0 {
      ShuffledDeckEven(n, draws, x);
    }
  }

  /** An element of a sequence without repetitions occurs in it once. */
  lemma {:induction false} OccursOnce(s: seq<string>, i: nat)
    requires i < |s|
    requires forall a, b :: 0 <= a < b < |s| ==> s[a] != s[b]
    ensures multiset(s)[s[i]] == 1
  {
    var last := |s| - 1;
    assert s == s[..last] + [s[last]];
    if i < last {
      OccursOnce(s[..last], i);
    } else {
      assert s[last] !in s[..last];
    }
  }

  /** No two palette entries are the same file name. */
  lemma PaletteDistinct()
    ensures forall a, b :: 0 <= a < b < |AnimalImages| ==> AnimalImages[a] != AnimalImages[b]
  {
  }

  /** Up to ten pairs every selected image is on exactly two cards. */
  lemma FewPairsTwice(n: nat, i: nat)
    requires n <= |AnimalImages| && i < n
    ensures multiset(PairedDeck(n))[AnimalImages[i]] == 2
  {
    PaletteDistinct();
    assert Cycled(n) == AnimalImages[..n];
    OccursOnce(AnimalImages[..n], i);
  }

  /** Between ten and twenty pairs the images are the whole palette
      followed by its first `n - 10` entries again. */
  lemma CycledWraps(n: nat)
    requires |AnimalImages| <= n <= 2 * |AnimalImages|
    ensures Cycled(n) == AnimalImages + AnimalImages[..n - |AnimalImages|]
  {
    var w := AnimalImages + AnimalImages[..n - |AnimalImages|];
    forall i | 0 <= i < n ensures Cycled(n)[i] == w[i] {
      if i < |AnimalImages| {
        assert i % |AnimalImages| == i;
      } else {
        assert i % |AnimalImages| == i - |AnimalImages|;
      }
    }
  }

  /** In a sequence without repetitions followed by a prefix of itself, the
      first element occurs twice. */
  lemma FirstOccursTwice(p: seq<string>, k: nat)
    requires 0 < k <= |p|
    requires forall a, b :: 0 <= a < b < |p| ==> p[a] != p[b]
    ensures multiset(p + p[..k])[p[0]] == 2
  {
    OccursOnce(p, 0);
    OccursOnce(p[..k], 0);
    assert multiset(p + p[..k]) == multiset(p) + multiset(p[..k]);
  }

  /** With eleven to twenty pairs the first image lies on four cards. */
  lemma WrappedTwice(n: nat)
    requires |AnimalImages| < n <= 2 * |AnimalImages|
    ensures multiset(PairedDeck(n))[AnimalImages[0]] == 4
  {
    CycledWraps(n);
    PaletteDistinct();
    FirstOccursTwice(AnimalImages, n - |AnimalImages|);
    assert multiset(PairedDeck(n)) == multiset(Cycled(n)) + multiset(Cycled(n));
  }

  /** From eleven pairs on the palette repeats: a 4 x 6 grid shows the first
      image on exactly four cards, positions 0 and 10 of each half. */
  lemma ManyPairsRepeat()
    ensures ValidGrid(4, 6)
    ensures var deck := PairedDeck(4 * 6 / 2);
      && |deck| == 24
      && deck[0] == AnimalImages[0] && deck[10] == AnimalImages[0]
      && deck[12] == AnimalImages[0] && deck[22] == AnimalImages[0]
      && multiset(deck)[AnimalImages[0]] == 4
  {
    WrappedTwice(12);
  }

  // ---------------------------------------------------------------------
  // The game state as a value.

  /** What a selected card is: a card of the current grid, or a card element
      of an earlier grid that stayed in the selection when the grid was
      rebuilt (it keeps the image it was built with). */
  datatype CardRef = Live(index: nat) | Stale(symbol: string)

  /** The page's global game variables, the face of every card of the grid,
      and whether the game container is the one shown (`inGame`). */
  datatype Table = Table(
    gridRows: int,
    gridCols: int,
    cards: seq<string>,
    states: seq<Face>,
    flippedCards: seq<CardRef>,
    moves: nat,
    timerStarted: bool,
    currentPlayer: nat,
    playerScores: seq<nat>,
    inGame: bool)

  /** The `data-symbol` of a selected card. */
  function SymbolOf(t: Table, r: CardRef): string
    requires r.Live? ==> r.index < |t.cards|
  {
    match r
    case Live(i) => t.cards[i]
    case Stale(symbol) => symbol
  }

  /** Sets the face of the selected card when it belongs to the current grid;
      a detached element's classes are no longer part of the grid. */
  function SetFace(s: seq<Face>, r: CardRef, v: Face): (u: seq<Face>)
    ensures |u| == |s|
  {
    if r.Live? && r.index < |s| then s[r.index := v] else s
  }

  function TotalScore(t: Table): nat
    requires |t.playerScores| == 2
  {
    t.playerScores[0] + t.playerScores[1]
  }

  /** The bookkeeping of the grid and the selection. */
  predicate Shape(t: Table)
  {
    && |t.states| == |t.cards|
    && |t.playerScores| == 2
    && t.currentPlayer <= 1
    && |t.flippedCards| <= 2
    && (forall j :: 0 <= j < |t.flippedCards| && t.flippedCards[j].Live? ==>
          t.flippedCards[j].index < |t.states| && t.states[t.flippedCards[j].index] == Up)
    && (forall i :: 0 <= i < |t.states| && t.states[i] == Up ==> Live(i) in t.flippedCards)
    && (|t.flippedCards| == 2 ==> t.flippedCards[0] != t.flippedCards[1])
  }

  /** While a game is shown: the grid passed the size check, the deck holds
      every image an even number of times, and the matched cards are twice
      the scored pairs, less the one card a pair with a detached card may
      have added to the scores; such a pair uses up the only detached card. */
  predicate Scoring(t: Table)
    requires |t.playerScores| == 2
  {
    && ValidGrid(t.gridRows, t.gridCols)
    && |t.cards| == t.gridRows * t.gridCols
    && (forall x :: x in t.cards ==> multiset(t.cards)[x] % 2 == 0)
    && MatchedCount(t.states) <= 2 * TotalScore(t) <= MatchedCount(t.states) + 1
    && (2 * TotalScore(t) == MatchedCount(t.states) + 1 ==>
          forall j :: 0 <= j < |t.flippedCards| ==> t.flippedCards[j].Live?)
  }

  /** Two pending cards are always a mismatch that waits for its timeout. */
  predicate Pending(t: Table)
    requires Shape(t)
  {
    |t.flippedCards| == 2 ==> SymbolOf(t, t.flippedCards[0]) != SymbolOf(t, t.flippedCards[1])
  }

  /** Everything that holds between events, except at the moment the second
      card of a pair is up and not yet compared. */
  predicate Consistent(t: Table)
  {
    Shape(t) && (t.inGame ==> Scoring(t))
  }

  predicate Inv(t: Table)
  {
    Consistent(t) && Pending(t)
  }

  /** The page once loaded: the welcome form is shown, no grid exists yet. */
  const Loaded := Table(4, 4, [], [], [], 0, false, 0, [0, 0], false)

  /** `resetGameInfo`. */
  function GameInfoReset(t: Table): (r: Table)
    ensures r.moves == 0 && r.playerScores == [0, 0] && r.currentPlayer == 0 && !r.timerStarted
    ensures r.cards == t.cards && r.states == t.states && r.flippedCards == t.flippedCards
    ensures r.inGame == t.inGame && r.gridRows == t.gridRows && r.gridCols == t.gridCols
  {
    t.(moves := 0, playerScores := [0, 0], currentPlayer := 0, timerStarted := false)
  }

  /** A selected card element of the grid that is being replaced. */
  function Detach(r: CardRef, cards: seq<string>): CardRef
    requires r.Live? ==> r.index < |cards|
  {
    match r
    case Live(i) => Stale(cards[i])
    case Stale(symbol) => Stale(symbol)
  }

  /** The selection once its grid is replaced: the same card elements, each
      detached and keeping the image it showed. */
  function DetachAll(rs: seq<CardRef>, cards: seq<string>): (r: seq<CardRef>)
    requires forall j :: 0 <= j < |rs| && rs[j].Live? ==> rs[j].index < |cards|
    ensures |r| == |rs|
    ensures forall j :: 0 <= j < |r| ==>
              r[j].Stale? && r[j].symbol == (if rs[j].Live? then cards[rs[j].index] else rs[j].symbol)
  {
    seq(|rs|, j requires 0 <= j < |rs| => Detach(rs[j], cards))
  }

  /** `initializeGame`: a shuffled deck of `rows * cols / 2` pairs, a new grid
      of face-down cards, and the game information reset. The selection is
      not emptied: the cards in it now are elements of the old grid. */
  function AfterInitialize(t: Table, draws: seq<nat>): (r: Table)
    requires Shape(t) && ValidGrid(t.gridRows, t.gridCols)
    requires FisherYates.IsSwapSequence(draws, t.gridRows * t.gridCols)
    ensures |r.cards| == t.gridRows * t.gridCols
    ensures |r.states| == |r.cards| && MatchedCount(r.states) == 0
    ensures forall i :: 0 <= i < |r.states| ==> r.states[i] == Down
    ensures |r.flippedCards| == |t.flippedCards|
    ensures forall j :: 0 <= j < |r.flippedCards| ==> r.flippedCards[j].Stale?
    ensures r.moves == 0 && r.playerScores == [0, 0] && r.currentPlayer == 0 && !r.timerStarted
    ensures r.inGame == t.inGame && r.gridRows == t.gridRows && r.gridCols == t.gridCols
  {
    var deck := FisherYates.Shuffled(PairedDeck(t.gridRows * t.gridCols / 2), draws);
    GameInfoReset(t.(cards := deck, states := AllDown(|deck|),
                     flippedCards := DetachAll(t.flippedCards, t.cards)))
  }

  /** The start button: record the requested grid, and start a game exactly
      when it passes the size check. */
  function AfterStart(t: Table, rows: int, cols: int, draws: seq<nat>): (r: (Table, bool))
    requires Inv(t) && !t.inGame
    requires ValidGrid(rows, cols) ==> FisherYates.IsSwapSequence(draws, rows * cols)
    ensures r.0.gridRows == rows && r.0.gridCols == cols
    ensures r.1 == ValidGrid(rows, cols) && r.0.inGame == r.1
  {
    var t1 := t.(gridRows := rows, gridCols := cols);
    if ValidGrid(rows, cols) then (AfterInitialize(t1.(inGame := true), draws), true)
    else (t1, false)
  }

  /** The restart button: back to the welcome form with the game information
      reset. */
  function AfterRestart(t: Table): (r: Table)
    ensures !r.inGame && r.moves == 0 && r.playerScores == [0, 0] && r.currentPlayer == 0
    ensures !r.timerStarted
    ensures r.cards == t.cards && r.states == t.states && r.flippedCards == t.flippedCards
    ensures r.gridRows == t.gridRows && r.gridCols == t.gridCols
  {
    GameInfoReset(t.(inGame := false))
  }

  /** The state once the clicked card is turned up and selected; the second
      card of a pair also counts a move. */
  function TurnedUp(t: Table, k: nat): (r: Table)
    requires k < |t.states|
    ensures |r.states| == |t.states| && r.states[k] == Up
    ensures forall i :: 0 <= i < |t.states| && i != k ==> r.states[i] == t.states[i]
    ensures r.flippedCards == t.flippedCards + [Live(k)] && r.cards == t.cards
    ensures r.moves == t.moves + (if |t.flippedCards| == 1 then 1 else 0)
    ensures r.playerScores == t.playerScores && r.currentPlayer == t.currentPlayer
  {
    var t1 := t.(states := t.states[k := Up], flippedCards := t.flippedCards + [Live(k)]);
    if |t1.flippedCards| == 2 then t1.(moves := t1.moves + 1) else t1
  }

  /** `checkForMatch`: equal symbols mark both cards matched, empty the
      selection and credit the current player; the boolean says the matched
      cards now fill the grid. On a mismatch nothing changes until the
      deferred step. */
  function AfterCheck(t: Table): (r: (Table, bool))
    requires Consistent(t) && |t.flippedCards| == 2
    ensures var same := SymbolOf(t, t.flippedCards[0]) == SymbolOf(t, t.flippedCards[1]);
      && r.0.cards == t.cards && |r.0.states| == |t.states| && r.0.moves == t.moves
      && r.0.currentPlayer == t.currentPlayer && |r.0.playerScores| == 2
      && (r.0.flippedCards == [] <==> same)
      && TotalScore(r.0) == TotalScore(t) + (if same then 1 else 0)
      && (r.1 ==> same)
  {
    var first, second := t.flippedCards[0], t.flippedCards[1];
    if SymbolOf(t, first) == SymbolOf(t, second) then
      var states := SetFace(SetFace(t.states, first, Matched), second, Matched);
      var scores := t.playerScores[t.currentPlayer := t.playerScores[t.currentPlayer] + 1];
      (t.(states := states, flippedCards := [], playerScores := scores),
       MatchedCount(states) == |t.cards|)
    else
      (t, false)
  }

  /** The card click handler: the first click starts the timer; a card that
      is turned up or matched, or any card while two are pending, is ignored. */
  function AfterClick(t: Table, k: nat): (r: (Table, bool))
    requires Inv(t) && t.inGame && k < |t.states|
    ensures r.0.timerStarted && r.0.cards == t.cards && |r.0.states| == |t.states|
    ensures r.0.currentPlayer == t.currentPlayer
    ensures t.moves <= r.0.moves <= t.moves + 1
    ensures |r.0.playerScores| == 2 && TotalScore(t) <= TotalScore(r.0) <= TotalScore(t) + 1
  {
    var t1 := t.(timerStarted := true);
    if t.states[k] != Down || |t.flippedCards| == 2 then
      (t1, false)
    else
      var t2 := TurnedUp(t1, k);
      TurnedUpConsistent(t, k);
      if |t2.flippedCards| == 2 then AfterCheck(t2) else (t2, false)
  }

  /** The `setTimeout` callback of a mismatch: both cards face down again,
      the selection emptied, and the turn passed to the other player. */
  function AfterTimeout(t: Table): (r: Table)
    requires |t.flippedCards| == 2
    ensures r.flippedCards == [] && r.cards == t.cards && |r.states| == |t.states|
    ensures r.currentPlayer <= 1 && r.currentPlayer != t.currentPlayer
    ensures r.playerScores == t.playerScores && r.moves == t.moves
  {
    var first, second := t.flippedCards[0], t.flippedCards[1];
    t.(states := SetFace(SetFace(t.states, first, Down), second, Down),
       flippedCards := [],
       currentPlayer := if t.currentPlayer == 0 then 1 else 0)
  }

  // ---------------------------------------------------------------------
  // What the events promise.

  lemma LoadedInv()
    ensures Inv(Loaded)
  {
  }

  lemma SetFaceCount(s: seq<Face>, r: CardRef, v: Face)
    requires r.Live? ==> r.index < |s| && s[r.index] == Up
    requires v != Matched
    ensures MatchedCount(SetFace(s, r, v)) == MatchedCount(s)
  {
    if r.Live? {
      MatchedCountUpdate(s, r.index, v);
    }
  }

  /** Turning up a face-down card (the click having started the timer) keeps
      everything but the pending-mismatch clause. */
  lemma TurnedUpConsistent(t: Table, k: nat)
    requires Inv(t) && t.inGame && k < |t.states| && t.states[k] == Down && |t.flippedCards| < 2
    ensures Consistent(TurnedUp(t.(timerStarted := true), k))
    ensures |t.flippedCards| == 0 ==> Inv(TurnedUp(t.(timerStarted := true), k))
  {
    MatchedCountUpdate(t.states, k, Up);
    var u := TurnedUp(t.(timerStarted := true), k);
    forall i | 0 <= i < |u.states| && u.states[i] == Up ensures Live(i) in u.flippedCards {
      if i != k {
        assert Live(i) in t.flippedCards;
      }
    }
  }

  /** A start keeps the invariant, whichever grid the players ask for. */
  lemma StartInv(t: Table, rows: int, cols: int, draws: seq<nat>)
    requires Inv(t) && !t.inGame
    requires ValidGrid(rows, cols) ==> FisherYates.IsSwapSequence(draws, rows * cols)
    ensures Inv(AfterStart(t, rows, cols, draws).0)
  {
    if ValidGrid(rows, cols) {
      var n := rows * cols / 2;
      assert 2 * n == rows * cols;
      ShuffledDeckPaired(n, draws);
    }
  }

  /** The start button accepts the grid exactly when it passes the size check.
      On acceptance the game is shown with a deck of `rows * cols` cards that
      is a permutation of the paired deck, all cards face down and the game
      information reset; the selection keeps its length but holds only
      detached cards. On refusal only the requested sizes are recorded. */
  lemma StartOutcome(t: Table, rows: int, cols: int, draws: seq<nat>)
    requires Inv(t) && !t.inGame
    requires ValidGrid(rows, cols) ==> FisherYates.IsSwapSequence(draws, rows * cols)
    ensures var (u, accepted) := AfterStart(t, rows, cols, draws);
      && u.gridRows == rows && u.gridCols == cols
      && (accepted <==> 2 <= rows <= 10 && 2 <= cols <= 10 && (rows * cols) % 2 == 0)
      && (!accepted ==> u == t.(gridRows := rows, gridCols := cols))
      && (accepted ==>
            && u.inGame
            && |u.cards| == rows * cols
            && multiset(u.cards) == multiset(PairedDeck(rows * cols / 2))
            && (forall i :: 0 <= i < |u.states| ==> u.states[i] == Down)
            && u.moves == 0 && u.playerScores == [0, 0] && u.currentPlayer == 0 && !u.timerStarted
            && |u.flippedCards| == |t.flippedCards|
            && (forall j :: 0 <= j < |u.flippedCards| ==> u.flippedCards[j].Stale?))
  {
    var t1 := t.(gridRows := rows, gridCols := cols);
    if ValidGrid(rows, cols) {
      var n := rows * cols / 2;
      assert 2 * n == rows * cols;
      var deck := FisherYates.Shuffled(PairedDeck(n), draws);
      FisherYates.ShuffledPermutes(PairedDeck(n), draws);
      var u := AfterInitialize(t1.(inGame := true), draws);
      assert u.cards == deck && u.states == AllDown(|deck|);
      assert u.flippedCards == DetachAll(t.flippedCards, t.cards);
    }
  }

  lemma RestartInv(t: Table)
    requires Inv(t)
    ensures Inv(AfterRestart(t))
  {
  }

  /** Marking both selected cards matched leaves no card turned up and adds
      one matched card per selected card of the current grid. */
  lemma MatchBoth(t: Table)
    requires Shape(t) && |t.flippedCards| == 2
    ensures var first, second := t.flippedCards[0], t.flippedCards[1];
      var states := SetFace(SetFace(t.states, first, Matched), second, Matched);
      && (forall i :: 0 <= i < |states| ==> states[i] != Up)
      && MatchedCount(states) == MatchedCount(t.states) + (if first.Live? then 1 else 0)
                                                        + (if second.Live? then 1 else 0)
  {
    var first, second := t.flippedCards[0], t.flippedCards[1];
    var s1 := SetFace(t.states, first, Matched);
    if first.Live? {
      MatchedCountUpdate(t.states, first.index, Matched);
    }
    if second.Live? {
      MatchedCountUpdate(s1, second.index, Matched);
    }
    var states := SetFace(s1, second, Matched);
    forall i | 0 <= i < |states| ensures states[i] != Up {
      if t.states[i] == Up {
        assert Live(i) in t.flippedCards;
      }
    }
  }

  lemma CheckInv(t: Table)
    requires Consistent(t) && |t.flippedCards| == 2
    ensures Inv(AfterCheck(t).0)
  {
    if SymbolOf(t, t.flippedCards[0]) == SymbolOf(t, t.flippedCards[1]) {
      MatchBoth(t);
    }
  }

  lemma ClickInv(t: Table, k: nat)
    requires Inv(t) && t.inGame && k < |t.states|
    ensures Inv(AfterClick(t, k).0)
  {
    var t1 := t.(timerStarted := true);
    if t.states[k] == Down && |t.flippedCards| < 2 {
      TurnedUpConsistent(t, k);
      if |t.flippedCards| == 1 {
        CheckInv(TurnedUp(t1, k));
      }
    }
  }

  lemma TimeoutInv(t: Table)
    requires Inv(t) && |t.flippedCards| == 2
    ensures Inv(AfterTimeout(t))
  {
    var first, second := t.flippedCards[0], t.flippedCards[1];
    SetFaceCount(t.states, first, Down);
    SetFaceCount(SetFace(t.states, first, Down), second, Down);
    var u := AfterTimeout(t);
    forall i | 0 <= i < |u.states| ensures u.states[i] != Up {
      if t.states[i] == Up {
        assert Live(i) in t.flippedCards;
      }
    }
  }

  /** A click on a turned-up or matched card, or any click while two cards
      are pending, only starts the timer. */
  lemma ClickIgnored(t: Table, k: nat)
    requires Inv(t) && t.inGame && k < |t.states|
    ensures AfterClick(t, k).0.timerStarted
    ensures t.states[k] != Down || |t.flippedCards| == 2 <==>
              AfterClick(t, k) == (t.(timerStarted := true), false)
  {
  }

  /** A move is counted exactly when the selection reaches two cards, and the
      selection never holds more than two. */
  lemma ClickMoves(t: Table, k: nat)
    requires Inv(t) && t.inGame && k < |t.states|
    ensures var r := AfterClick(t, k).0;
      && r.moves == t.moves + (if t.states[k] == Down && |t.flippedCards| == 1 then 1 else 0)
      && |r.flippedCards| <= 2
  {
    ClickInv(t, k);
  }

  /** The second card of a pair with the same symbol: both cards are matched,
      the selection is cleared, the current player scores one and keeps the
      turn. */
  lemma ClickMatch(t: Table, k: nat)
    requires Inv(t) && t.inGame && k < |t.states|
    requires t.states[k] == Down && |t.flippedCards| == 1
    requires SymbolOf(t, t.flippedCards[0]) == t.cards[k]
    ensures var (r, gameOver) := AfterClick(t, k);
      && r.states == SetFace(t.states, t.flippedCards[0], Matched)[k := Matched]
      && r.flippedCards == []
      && r.playerScores[t.currentPlayer] == t.playerScores[t.currentPlayer] + 1
      && r.playerScores[1 - t.currentPlayer] == t.playerScores[1 - t.currentPlayer]
      && r.currentPlayer == t.currentPlayer
      && (gameOver <==> forall i :: 0 <= i < |r.states| ==> r.states[i] == Matched)
  {
    var r := AfterClick(t, k).0;
    AllMatchedIff(r.states);
  }

  /** The second card of a pair with another symbol stays up and selected;
      scores and turn are untouched until the deferred step. */
  lemma ClickMismatch(t: Table, k: nat)
    requires Inv(t) && t.inGame && k < |t.states|
    requires t.states[k] == Down && |t.flippedCards| == 1
    requires SymbolOf(t, t.flippedCards[0]) != t.cards[k]
    ensures var (r, gameOver) := AfterClick(t, k);
      && r.states == t.states[k := Up]
      && r.flippedCards == t.flippedCards + [Live(k)]
      && r.playerScores == t.playerScores && r.currentPlayer == t.currentPlayer
      && !gameOver
  {
  }

  /** The deferred step turns the pending cards of the grid face down, empties
      the selection and passes the turn; moves and scores stay. */
  lemma TimeoutOutcome(t: Table)
    requires Inv(t) && |t.flippedCards| == 2
    ensures var r := AfterTimeout(t);
      && r.flippedCards == []
      && (forall i :: 0 <= i < |t.states| ==>
            r.states[i] == if Live(i) in t.flippedCards then Down else t.states[i])
      && r.currentPlayer == 1 - t.currentPlayer
      && r.playerScores == t.playerScores && r.moves == t.moves
  {
  }

  /** The selection that survives a start: a card element of the earlier grid
      pairs with a face-down card of the same image. The current player scores
      a pair, but only the one card of the grid is marked matched, so the two
      scores now stand one card ahead of the matched cards. */
  lemma StaleMatchScoresOneCard(t: Table, k: nat)
    requires Inv(t) && t.inGame && k < |t.states| && t.states[k] == Down
    requires t.flippedCards == [Stale(t.cards[k])]
    ensures var (r, _) := AfterClick(t, k);
      && r.flippedCards == [] && r.states == t.states[k := Matched]
      && TotalScore(r) == TotalScore(t) + 1
      && MatchedCount(r.states) == MatchedCount(t.states) + 1
      && 2 * TotalScore(r) == MatchedCount(r.states) + 1
  {
    MatchedCountUpdate(t.states, k, Matched);
  }

  /** An even number of matched cards means that no pair of this game was
      completed by a detached card (after such a pair the count stays odd
      until the next start: `OddAfterClick`, `OddAfterTimeout`). Then the matched cards are twice the two scores
      together, and the grid is complete exactly when those scores account
      for every card. */
  lemma CompleteByScores(t: Table)
    requires Inv(t) && t.inGame
    requires MatchedCount(t.states) % 2 == 0
    ensures MatchedCount(t.states) == 2 * (t.playerScores[0] + t.playerScores[1])
    ensures MatchedCount(t.states) == |t.cards| <==>
              2 * (t.playerScores[0] + t.playerScores[1]) == |t.cards|
    ensures MatchedCount(t.states) == |t.cards| <==>
              forall i :: 0 <= i < |t.states| ==> t.states[i] == Matched
  {
    AllMatchedIff(t.states);
  }

  /** Once a detached card has completed a pair, every later click of the
      same game keeps the scores one card ahead of the matched cards. */
  lemma {:induction false} OddAfterClick(t: Table, k: nat)
    requires Inv(t) && t.inGame && k < |t.states|
    requires 2 * TotalScore(t) == MatchedCount(t.states) + 1
    ensures var r := AfterClick(t, k).0;
      2 * TotalScore(r) == MatchedCount(r.states) + 1
  {
    if t.states[k] == Down && |t.flippedCards| < 2 {
      MatchedCountUpdate(t.states, k, Up);
      if |t.flippedCards| == 1 {
        MatchBoth(TurnedUp(t.(timerStarted := true), k));
      }
    }
  }

  /** The mismatch callback keeps the scores one card ahead of the matched
      cards as well. */
  lemma {:induction false} OddAfterTimeout(t: Table)
    requires Inv(t) && t.inGame && |t.flippedCards| == 2
    requires 2 * TotalScore(t) == MatchedCount(t.states) + 1
    ensures var r := AfterTimeout(t);
      2 * TotalScore(r) == MatchedCount(r.states) + 1
  {
    var first, second := t.flippedCards[0], t.flippedCards[1];
    SetFaceCount(t.states, first, Down);
    SetFaceCount(SetFace(t.states, first, Down), second, Down);
  }

  // ---------------------------------------------------------------------
  // The page, as an object whose fields the event handlers update.

  class Game {
    var gridRows: int
    var gridCols: int
    var cards: seq<string>
    var states: seq<Face>
    var flippedCards: seq<CardRef>
    var moves: nat
    var timerStarted: bool
    var currentPlayer: nat
    var playerScores: seq<nat>
    var inGame: bool

    function Snapshot(): Table
      reads this
    {
      Table(gridRows, gridCols, cards, states, flippedCards, moves, timerStarted,
            currentPlayer, playerScores, inGame)
    }

    ghost predicate Valid()
      reads this
    {
      Inv(Snapshot())
    }

    constructor ()
      ensures Valid() && Snapshot() == Loaded
    {
      gridRows, gridCols := 4, 4;
      cards, states, flippedCards := [], [], [];
      moves, timerStarted := 0, false;
      currentPlayer, playerScores := 0, [0, 0];
      inGame := false;
    }

    /** The start button handler. */
    method StartGame(rows: int, cols: int, draws: seq<nat>) returns (accepted: bool)
      requires Valid() && !inGame
      requires ValidGrid(rows, cols) ==> FisherYates.IsSwapSequence(draws, rows * cols)
      modifies this
      ensures Valid()
      ensures (Snapshot(), accepted) == AfterStart(old(Snapshot()), rows, cols, draws)
    {
      StartInv(Snapshot(), rows, cols, draws);
      gridRows := rows;
      gridCols := cols;
      var totalCards := gridRows * gridCols;
      accepted := gridRows >= 2 && gridRows <= 10 && gridCols >= 2 && gridCols <= 10 && totalCards % 2 == 0;
      if accepted {
        inGame := true;
        InitializeGame(draws);
      }
    }

    method InitializeGame(draws: seq<nat>)
      requires Shape(Snapshot()) && ValidGrid(gridRows, gridCols)
      requires FisherYates.IsSwapSequence(draws, gridRows * gridCols)
      modifies this
      ensures Snapshot() == AfterInitialize(old(Snapshot()), draws)
    {
      ghost var t0 := Snapshot();
      var deck := ShuffledDeck(gridRows * gridCols / 2, draws);
      // The old card elements leave the grid; those still selected keep their image.
      flippedCards := DetachAll(flippedCards, cards);
      cards := deck;
      states := AllDown(|cards|);
      ResetGameInfo();
      assert Snapshot() == AfterInitialize(t0, draws);
    }

    method ResetGameInfo()
      modifies this
      ensures Snapshot() == GameInfoReset(old(Snapshot()))
    {
      moves := 0;
      playerScores := [0, 0];
      currentPlayer := 0;
      timerStarted := false;
    }

    /** The restart button handler. */
    method Restart()
      requires Valid()
      modifies this
      ensures Valid()
      ensures Snapshot() == AfterRestart(old(Snapshot()))
    {
      RestartInv(Snapshot());
      inGame := false;
      ResetGameInfo();
    }

    /** The card click handler for the card at index `k`; `gameOver` says the
        game-completed alert is shown. */
    method HandleCardClick(k: nat) returns (gameOver: bool)
      requires Valid() && inGame && k < |states|
      modifies this
      ensures Valid()
      ensures (Snapshot(), gameOver) == AfterClick(old(Snapshot()), k)
    {
      ghost var t0 := Snapshot();
      gameOver := false;
      if !timerStarted {
        timerStarted := true;
      }
      ghost var t1 := Snapshot();
      assert t1 == t0.(timerStarted := true);
      if states[k] == Down && |flippedCards| != 2 {
        TurnedUpConsistent(t0, k);
        flippedCards := flippedCards + [Live(k)];
        states := states[k := Up];
        if |flippedCards| == 2 {
          moves := moves + 1;
          assert Snapshot() == TurnedUp(t1, k);
          gameOver := CheckForMatch();
        }
      }
      ClickInv(t0, k);
    }

    method CheckForMatch() returns (gameOver: bool)
      requires Consistent(Snapshot()) && |flippedCards| == 2
      modifies this
      ensures (Snapshot(), gameOver) == AfterCheck(old(Snapshot()))
    {
      var first, second := flippedCards[0], flippedCards[1];
      if SymbolOf(Snapshot(), first) == SymbolOf(Snapshot(), second) {
        states := SetFace(SetFace(states, first, Matched), second, Matched);
        flippedCards := [];
        playerScores := playerScores[currentPlayer := playerScores[currentPlayer] + 1];
        gameOver := MatchedCount(states) == |cards|;
      } else {
        gameOver := false;
      }
    }

    /** The deferred step of a mismatch. */
    method FireMismatchTimeout()
      requires Valid() && |flippedCards| == 2
      modifies this
      ensures Valid()
      ensures Snapshot() == AfterTimeout(old(Snapshot()))
    {
      TimeoutInv(Snapshot());
      var first, second := flippedCards[0], flippedCards[1];
      states := SetFace(SetFace(states, first, Down), second, Down);
      flippedCards := [];
      currentPlayer := if currentPlayer == 0 then 1 else 0;
    }
  }
}
