/** The single-player game of memory-game-responsive/project6.js: a fixed
    deck of eight fruit pairs, a move counter, a matched-pair counter and a
    running `m:ss` clock. */
module Responsive {
  import opened Cards
  import FisherYates

  datatype Option<T> = None | Some(value: T)

  /** The eight fruits; each stands for the emoji the page shows on a card. */
  datatype Fruit = Apple | Banana | Grape | Strawberry | Cherry | Pineapple | Kiwi | Watermelon

  /** The deck as the page declares it, before any shuffle. */
  const InitialDeck: seq<Fruit> := [
    Apple, Apple, Banana, Banana, Grape, Grape, Strawberry, Strawberry,
    Cherry, Cherry, Pineapple, Pineapple, Kiwi, Kiwi, Watermelon, Watermelon
  ]

  /** In this game every fruit is on exactly two cards. */
  lemma InitialDeckPairs(f: Fruit)
    ensures |InitialDeck| == 16
    ensures multiset(InitialDeck)[f] == 2
  {
    var i := match f
      case Apple => 0 case Banana => 2 case Grape => 4 case Strawberry => 6
      case Cherry => 8 case Pineapple => 10 case Kiwi => 12 case Watermelon => 14;
    AdjacentPair(InitialDeck, i, f);
  }

  /** A value that lies on two neighbouring positions and nowhere else occurs
      twice. */
  lemma AdjacentPair<T>(s: seq<T>, i: nat, x: T)
    requires i + 1 < |s| && s[i] == x && s[i + 1] == x
    requires forall j :: 0 <= j < |s| && j != i && j != i + 1 ==> s[j] != x
    ensures multiset(s)[x] == 2
  {
    var before, after := s[..i], s[i + 2..];
    assert s == before + [x, x] + after;
    assert x !in before by {
      forall j | 0 <= j < |before| ensures before[j] != x { assert before[j] == s[j]; }
    }
    assert x !in after by {
      forall j | 0 <= j < |after| ensures after[j] != x { assert after[j] == s[i + 2 + j]; }
    }
  }

  // ---------------------------------------------------------------------
  // The clock text that every tick of the interval timer writes.

  /** Whole minutes and the remaining seconds of an elapsed time. */
  function MinutesAndSeconds(elapsed: nat): (r: (nat, nat))
    ensures r.0 * 60 + r.1 == elapsed && r.1 < 60
  {
    (elapsed / 60, elapsed % 60)
  }

  predicate IsDigits(t: string)
  {
    forall i :: 0 <= i < |t| ==> '0' <= t[i] <= '9'
  }

  function DigitChar(d: nat): (c: char)
    requires d < 10
    ensures '0' <= c <= '9' && c as int - '0' as int == d
  {
    (d + '0' as int) as char
  }

  /** The decimal text of a natural number, as JavaScript's `toString` gives it. */
  function Decimal(n: nat): (r: string)
    ensures 1 <= |r| && IsDigits(r)
    ensures n < 10 <==> |r| == 1
    ensures n >= 10 ==> r[0] != '0'
    decreases n
  {
    if n < 10 then [DigitChar(n)] else Decimal(n / 10) + [DigitChar(n % 10)]
  }

  /** `padStart(2, "0")`: prefix zeros up to two characters. */
  function PadTwo(t: string): (r: string)
    ensures |t| < 2 ==> |r| == 2 && r[2 - |t|..] == t && forall i :: 0 <= i < 2 - |t| ==> r[i] == '0'
    ensures |t| >= 2 ==> r == t
  {
    if |t| < 2 then seq(2 - |t|, _ => '0') + t else t
  }

  /** The text the timer element shows after `elapsed` seconds. */
  function TimerText(elapsed: nat): (r: string)
    ensures |r| >= 4 && r[|r| - 3] == ':'
    ensures IsDigits(r[..|r| - 3]) && IsDigits(r[|r| - 2..])
  {
    var (minutes, seconds) := MinutesAndSeconds(elapsed);
    SecondsText(seconds);
    var m, p := Decimal(minutes), PadTwo(Decimal(seconds));
    ColonSplit(m, p);
    m + ":" + p
  }

  /** The `"0:00"` that a start writes is the timer text of zero seconds. */
  lemma StartText()
    ensures TimerText(0) == "0:00"
  {
    assert Decimal(0) == "0";
    assert PadTwo("0") == "00";
  }

  /** A text `m:pp` splits back into `m` and `pp` around its colon. */
  lemma ColonSplit(m: string, p: string)
    requires |p| == 2
    ensures var t := m + ":" + p;
      |t| == |m| + 3 && t[|m|] == ':' && t[..|m|] == m && t[|m| + 1..] == p
  {
    var t := m + ":" + p;
    assert t[..|m|] == m;
    assert t[|m| + 1..] == p;
  }

  /** The number a string of digits denotes. */
  function DigitsValue(t: string): nat
    requires IsDigits(t)
    decreases |t|
  {
    if t == [] then 0 else DigitsValue(t[..|t| - 1]) * 10 + (t[|t| - 1] as int - '0' as int)
  }

  /** Reading a clock text `m:ss` back into seconds; `None` when the text does
      not have that shape or `ss` is not below 60. */
  function ReadTimer(t: string): Option<nat>
  {
    if |t| >= 4 && t[|t| - 3] == ':' then ReadMinutesSeconds(t[..|t| - 3], t[|t| - 2..]) else None
  }

  /** The value of the minutes and seconds fields either side of the colon. */
  function ReadMinutesSeconds(m: string, p: string): Option<nat>
  {
    if IsDigits(m) && IsDigits(p) && DigitsValue(p) < 60
    then Some(DigitsValue(m) * 60 + DigitsValue(p))
    else None
  }

  lemma {:induction false} DecimalValue(n: nat)
    ensures DigitsValue(Decimal(n)) == n
    decreases n
  {
    if n >= 10 {
      var d := Decimal(n / 10);
      DecimalValue(n / 10);
      assert (d + [DigitChar(n % 10)])[..|d|] == d;
    }
  }

  /** The seconds part always has exactly two digits and denotes the seconds. */
  lemma SecondsText(seconds: nat)
    requires seconds < 60
    ensures |PadTwo(Decimal(seconds))| == 2
    ensures IsDigits(PadTwo(Decimal(seconds)))
    ensures DigitsValue(PadTwo(Decimal(seconds))) == seconds
  {
    DecimalValue(seconds);
    var d := Decimal(seconds);
    if seconds < 10 {
      var p := PadTwo(d);
      assert p == ['0'] + d;
      assert p[..1] == ['0'];
    } else {
      assert seconds / 10 < 10;
      assert |Decimal(seconds / 10)| == 1;
    }
  }

  /** The displayed text reads back as exactly the elapsed seconds. */
  lemma ReadTimerText(elapsed: nat)
    ensures ReadTimer(TimerText(elapsed)) == Some(elapsed)
  {
    var (minutes, seconds) := MinutesAndSeconds(elapsed);
    var m, p := Decimal(minutes), PadTwo(Decimal(seconds));
    SecondsText(seconds);
    DecimalValue(minutes);
    assert m + ":" + p == TimerText(elapsed);
    ColonSplit(m, p);
    ReadClock(m + ":" + p, m, p);
  }

  /** A text made of digits `m`, a colon and two digits `pp` below 60 reads as
      `m` minutes and `pp` seconds. */
  lemma ReadClock(t: string, m: string, p: string)
    requires 1 <= |m| && IsDigits(m)
    requires |p| == 2 && IsDigits(p) && DigitsValue(p) < 60
    requires |t| == |m| + 3 && t[|m|] == ':' && t[..|m|] == m && t[|m| + 1..] == p
    ensures ReadTimer(t) == Some(DigitsValue(m) * 60 + DigitsValue(p))
  {
  }

  // ---------------------------------------------------------------------
  // The game state as a value, and one function per event that changes it.

  /** The page's module-level game variables, with the face of each card
      element of the grid (`states`; empty until the first start) and the
      indices of the cards in `flippedCards`. `timerRunning` says whether the
      interval timer is set. The deck itself is kept apart: it is an array
      that the page shuffles in place. */
  datatype Session = Session(
    states: seq<Face>,
    flippedCards: seq<nat>,
    matchedPairs: nat,
    moves: nat,
    secondsElapsed: nat,
    gameStarted: bool,
    timerRunning: bool)

  /** Everything that holds between events, except for the one moment when the
      second card of a pair has been turned up and not yet compared. */
  predicate Consistent(s: Session, deck: seq<Fruit>)
  {
    && |deck| == 16
    && (forall f: Fruit :: multiset(deck)[f] == 2)
    && (|s.states| == 0 || |s.states| == |deck|)
    && |s.flippedCards| <= 2
    && (forall k :: 0 <= k < |s.flippedCards| ==>
          s.flippedCards[k] < |s.states| && s.states[s.flippedCards[k]] == Up)
    && (forall i :: 0 <= i < |s.states| && s.states[i] == Up ==> i in s.flippedCards)
    && (|s.flippedCards| == 2 ==> s.flippedCards[0] != s.flippedCards[1])
    && MatchedCount(s.states) == 2 * s.matchedPairs
    && s.matchedPairs + |s.flippedCards| / 2 <= s.moves
    && (s.matchedPairs == |deck| / 2 ==> !s.timerRunning)
  }

  /** The invariant of the game: in addition, two pending cards are always a
      mismatch waiting for its timeout. */
  predicate Inv(s: Session, deck: seq<Fruit>)
  {
    && Consistent(s, deck)
    && (|s.flippedCards| == 2 ==> deck[s.flippedCards[0]] != deck[s.flippedCards[1]])
  }

  /** The game is won once the matched pairs reach half the deck. */
  predicate Won(s: Session, deck: seq<Fruit>)
  {
    s.matchedPairs == |deck| / 2
  }

  /** The state when the page has loaded and the start button is not yet pressed. */
  const Loaded := Session([], [], 0, 0, 0, false, false)

  /** The page-load state satisfies the invariant on any deck of eight pairs. */
  lemma LoadedInv(deck: seq<Fruit>)
    requires |deck| == 16 && forall f: Fruit :: multiset(deck)[f] == 2
    ensures Inv(Loaded, deck)
  {
  }

  /** The state right after a start or restart on a deck of `n` cards. */
  function Initialized(n: nat): (r: Session)
    ensures |r.states| == n && MatchedCount(r.states) == 0
    ensures forall i :: 0 <= i < n ==> r.states[i] == Down
    ensures r.flippedCards == [] && r.matchedPairs == 0 && r.moves == 0 && r.secondsElapsed == 0
    ensures r.gameStarted && r.timerRunning
  {
    Session(AllDown(n), [], 0, 0, 0, true, true)
  }

  /** `checkForMatch`: on equal fruits both cards are marked matched (and stay
      turned up), the pair is counted, the selection empties, and the last pair
      stops the timer; the boolean says the game was won. On a mismatch
      nothing changes until the deferred step. */
  function AfterCheck(s: Session, deck: seq<Fruit>): (r: (Session, bool))
    requires Consistent(s, deck) && |s.flippedCards| == 2
    ensures var same := deck[s.flippedCards[0]] == deck[s.flippedCards[1]];
      && |r.0.states| == |s.states| && r.0.moves == s.moves && r.0.gameStarted == s.gameStarted
      && (r.0.flippedCards == [] <==> same)
      && r.0.matchedPairs == s.matchedPairs + (if same then 1 else 0)
      && (r.1 <==> same && Won(r.0, deck))
  {
    var first, second := s.flippedCards[0], s.flippedCards[1];
    if deck[first] == deck[second] then
      var pairs := s.matchedPairs + 1;
      var won := pairs == |deck| / 2;
      (s.(states := s.states[first := Matched][second := Matched],
          flippedCards := [],
          matchedPairs := pairs,
          timerRunning := s.timerRunning && !won),
       won)
    else
      (s, false)
  }

  /** `flipCard` on the card at index `k`. */
  function AfterFlip(s: Session, deck: seq<Fruit>, k: nat): (r: (Session, bool))
    requires Inv(s, deck) && k < |s.states|
    ensures |r.0.states| == |s.states| && r.0.gameStarted == s.gameStarted
    ensures s.moves <= r.0.moves <= s.moves + 1
    ensures s.matchedPairs <= r.0.matchedPairs <= s.matchedPairs + 1
    ensures r.0.secondsElapsed == s.secondsElapsed
  {
    if !s.gameStarted || |s.flippedCards| == 2 || s.states[k] != Down then
      (s, false)
    else
      var t := TurnedUp(s, k);
      TurnedUpConsistent(s, deck, k);
      if |t.flippedCards| == 2 then AfterCheck(t, deck) else (t, false)
  }

  /** The state once the clicked card is turned up and selected; the second
      card of a pair also counts a move. */
  function TurnedUp(s: Session, k: nat): (r: Session)
    requires k < |s.states|
    ensures |r.states| == |s.states| && r.states[k] == Up
    ensures forall i :: 0 <= i < |s.states| && i != k ==> r.states[i] == s.states[i]
    ensures r.flippedCards == s.flippedCards + [k] && r.matchedPairs == s.matchedPairs
    ensures r.moves == s.moves + (if |s.flippedCards| == 1 then 1 else 0)
  {
    var t := s.(states := s.states[k := Up], flippedCards := s.flippedCards + [k]);
    if |t.flippedCards| == 2 then t.(moves := t.moves + 1) else t
  }

  lemma TurnedUpConsistent(s: Session, deck: seq<Fruit>, k: nat)
    requires Inv(s, deck) && k < |s.states| && TurnsUp(s, k)
    ensures Consistent(TurnedUp(s, k), deck)
    ensures |s.flippedCards| == 0 ==> Inv(TurnedUp(s, k), deck)
  {
    MatchedCountUpdate(s.states, k, Up);
  }

  /** The `setTimeout` callback of a mismatch. */
  function AfterTimeout(s: Session): (r: Session)
    requires |s.flippedCards| == 2
    requires s.flippedCards[0] < |s.states| && s.flippedCards[1] < |s.states|
    ensures r.flippedCards == [] && |r.states| == |s.states|
    ensures r.states[s.flippedCards[0]] == Down && r.states[s.flippedCards[1]] == Down
    ensures r.matchedPairs == s.matchedPairs && r.moves == s.moves
  {
    s.(states := s.states[s.flippedCards[0] := Down][s.flippedCards[1] := Down],
       flippedCards := [])
  }

  /** The turn-up step of a click that is not ignored. */
  predicate TurnsUp(s: Session, k: nat)
    requires k < |s.states|
  {
    s.gameStarted && |s.flippedCards| < 2 && s.states[k] == Down
  }

  // ---------------------------------------------------------------------
  // What the events promise.

  /** A start or restart keeps the invariant: the shuffled deck still holds
      every fruit twice, and the new grid is face down with zeroed counters. */
  lemma InitializedInv(s: Session, deck: seq<Fruit>, draws: seq<nat>)
    requires Inv(s, deck) && FisherYates.IsSwapSequence(draws, |deck|)
    ensures Inv(Initialized(|deck|), FisherYates.Shuffled(deck, draws))
  {
    FisherYates.ShuffledPermutes(deck, draws);
  }

  /** When the only cards turned up are the two selected ones, marking both
      matched leaves no card turned up. */
  lemma MatchingLeavesNoneUp(states: seq<Face>, selected: seq<nat>, marked: seq<Face>)
    requires |selected| == 2 && selected[0] < |states| && selected[1] < |states|
    requires marked == states[selected[0] := Matched][selected[1] := Matched]
    requires forall i :: 0 <= i < |states| && states[i] == Up ==> i in selected
    ensures |marked| == |states| && forall i :: 0 <= i < |marked| ==> marked[i] != Up
  {
    forall i | 0 <= i < |marked| ensures marked[i] != Up {
      if states[i] == Up {
        assert i in selected;
      }
    }
  }

  lemma CheckInv(s: Session, deck: seq<Fruit>)
    requires Consistent(s, deck) && |s.flippedCards| == 2
    ensures Inv(AfterCheck(s, deck).0, deck)
  {
    if deck[s.flippedCards[0]] == deck[s.flippedCards[1]] {
      MatchInv(s, deck);
    }
  }

  /** A matching pair: both cards matched, the selection emptied and the
      pair counted keep the invariant. */
  lemma MatchInv(s: Session, deck: seq<Fruit>)
    requires Consistent(s, deck) && |s.flippedCards| == 2
    requires deck[s.flippedCards[0]] == deck[s.flippedCards[1]]
    ensures Inv(AfterCheck(s, deck).0, deck)
  {
    var first, second := s.flippedCards[0], s.flippedCards[1];
    var states := s.states[first := Matched][second := Matched];
    MatchedCountUpdate(s.states, first, Matched);
    MatchedCountUpdate(s.states[first := Matched], second, Matched);
    MatchingLeavesNoneUp(s.states, s.flippedCards, states);
    var r := AfterCheck(s, deck).0;
    assert r.states == states && r.flippedCards == [];
    assert r.matchedPairs == s.matchedPairs + 1 && r.moves == s.moves;
    assert MatchedCount(r.states) == 2 * r.matchedPairs;
    assert r.matchedPairs == |deck| / 2 ==> !r.timerRunning;
  }

  lemma FlipInv(s: Session, deck: seq<Fruit>, k: nat)
    requires Inv(s, deck) && k < |s.states|
    ensures Inv(AfterFlip(s, deck, k).0, deck)
  {
    if TurnsUp(s, k) {
      TurnedUpConsistent(s, deck, k);
      if |s.flippedCards| == 1 {
        CheckInv(TurnedUp(s, k), deck);
      }
    }
  }

  lemma TimeoutInv(s: Session, deck: seq<Fruit>)
    requires Inv(s, deck) && |s.flippedCards| == 2
    ensures Inv(AfterTimeout(s), deck)
  {
    var first, second := s.flippedCards[0], s.flippedCards[1];
    MatchedCountUpdate(s.states, first, Down);
    MatchedCountUpdate(s.states[first := Down], second, Down);
  }

  /** A click before the start, while two cards are pending, or on a card that
      is already turned up or matched changes nothing. */
  lemma FlipIgnored(s: Session, deck: seq<Fruit>, k: nat)
    requires Inv(s, deck) && k < |s.states|
    ensures !TurnsUp(s, k) <==> AfterFlip(s, deck, k) == (s, false)
  {
  }

  /** The first card of a pair is turned up and selected; no move is counted. */
  lemma FlipFirst(s: Session, deck: seq<Fruit>, k: nat)
    requires Inv(s, deck) && k < |s.states| && TurnsUp(s, k) && s.flippedCards == []
    ensures var (r, won) := AfterFlip(s, deck, k);
      && r.states == s.states[k := Up] && r.flippedCards == [k]
      && r.moves == s.moves && r.matchedPairs == s.matchedPairs && !won
  {
  }

  /** The second card of a pair counts exactly one move. A match marks both
      cards matched, counts the pair and empties the selection at once; a
      mismatch leaves both turned up and selected. */
  lemma FlipSecond(s: Session, deck: seq<Fruit>, k: nat)
    requires Inv(s, deck) && k < |s.states| && TurnsUp(s, k) && |s.flippedCards| == 1
    ensures var (r, won) := AfterFlip(s, deck, k);
      var first := s.flippedCards[0];
      && r.moves == s.moves + 1
      && (deck[first] == deck[k] ==>
            && r.states == s.states[first := Matched][k := Matched]
            && r.flippedCards == [] && r.matchedPairs == s.matchedPairs + 1
            && won == Won(r, deck))
      && (deck[first] != deck[k] ==>
            && r.states == s.states[k := Up] && r.flippedCards == [first, k]
            && r.matchedPairs == s.matchedPairs && !won)
  {
  }

  /** A matched card stays matched whatever happens next. */
  lemma MatchedStays(s: Session, deck: seq<Fruit>, k: nat, i: nat)
    requires Inv(s, deck) && k < |s.states| && i < |s.states| && s.states[i] == Matched
    ensures AfterFlip(s, deck, k).0.states[i] == Matched
    ensures |s.flippedCards| == 2 ==> AfterTimeout(s).states[i] == Matched
  {
  }

  /** The deferred step turns exactly the two pending cards face down, empties
      the selection and leaves every other card and every counter alone. */
  lemma TimeoutRestores(s: Session, deck: seq<Fruit>)
    requires Inv(s, deck) && |s.flippedCards| == 2
    ensures var r := AfterTimeout(s);
      && r.flippedCards == []
      && (forall i :: 0 <= i < |s.states| ==>
            r.states[i] == if i in s.flippedCards then Down else s.states[i])
      && r.matchedPairs == s.matchedPairs && r.moves == s.moves
      && r.timerRunning == s.timerRunning && r.gameStarted == s.gameStarted
  {
  }

  /** The game is won exactly when every card of the grid is matched, and the
      moves are never fewer than the matched pairs. */
  lemma WonIffAllMatched(s: Session, deck: seq<Fruit>)
    requires Inv(s, deck)
    ensures Won(s, deck) <==> |s.states| > 0 && forall i :: 0 <= i < |s.states| ==> s.states[i] == Matched
    ensures s.matchedPairs <= s.moves
  {
    AllMatchedIff(s.states);
  }

  /** The click that wins the game reports it, and only that click. */
  lemma FlipReportsWin(s: Session, deck: seq<Fruit>, k: nat)
    requires Inv(s, deck) && k < |s.states|
    ensures var (r, won) := AfterFlip(s, deck, k);
      won <==> !Won(s, deck) && Won(r, deck)
  {
  }

  // ---------------------------------------------------------------------
  // The page, as an object whose fields the event handlers update.

  class Game {
    /** The deck: the page's one array, shuffled in place at every (re)start. */
    const cards: array<Fruit>
    var states: seq<Face>
    var flippedCards: seq<nat>
    var matchedPairs: nat
    var moves: nat
    var secondsElapsed: nat
    var gameStarted: bool
    var timerRunning: bool

    function Snapshot(): Session
      reads this
    {
      Session(states, flippedCards, matchedPairs, moves, secondsElapsed, gameStarted, timerRunning)
    }

    ghost predicate Valid()
      reads this, cards
    {
      Inv(Snapshot(), cards[..])
    }

    constructor ()
      ensures Valid() && fresh(cards)
      ensures cards[..] == InitialDeck && Snapshot() == Loaded
    {
      cards := new Fruit[16](i requires 0 <= i < 16 => InitialDeck[i]);
      states, flippedCards := [], [];
      matchedPairs, moves, secondsElapsed := 0, 0, 0;
      gameStarted, timerRunning := false, false;
      new;
      assert cards[..] == InitialDeck;
      forall f: Fruit ensures multiset(cards[..])[f] == 2 {
        InitialDeckPairs(f);
      }
      LoadedInv(cards[..]);
    }

    /** Start or restart: reset the counters, shuffle the deck in place,
        build a face-down grid, and set the timer. */
    method InitializeGame(draws: seq<nat>)
      requires Valid() && FisherYates.IsSwapSequence(draws, cards.Length)
      modifies this, cards
      ensures Valid()
      ensures cards[..] == FisherYates.Shuffled(old(cards[..]), draws)
      ensures Snapshot() == Initialized(cards.Length)
    {
      InitializedInv(Snapshot(), cards[..], draws);
      flippedCards := [];
      matchedPairs := 0;
      moves := 0;
      secondsElapsed := 0;
      gameStarted := true;
      var _ := FisherYates.Shuffle(cards, draws);
      states := AllDown(cards.Length);
      StartTimer();
    }

    /** Clear and set the interval timer. */
    method StartTimer()
      modifies this`secondsElapsed, this`timerRunning
      ensures secondsElapsed == 0 && timerRunning
    {
      secondsElapsed := 0;
      timerRunning := true;
    }

    /** One firing of the interval timer: one more second, and the text shown. */
    method Tick() returns (text: string)
      requires Valid() && timerRunning
      modifies this`secondsElapsed
      ensures Valid()
      ensures secondsElapsed == old(secondsElapsed) + 1
      ensures text == TimerText(secondsElapsed)
      ensures ReadTimer(text) == Some(secondsElapsed)
    {
      secondsElapsed := secondsElapsed + 1;
      text := TimerText(secondsElapsed);
      ReadTimerText(secondsElapsed);
    }

    /** A click on the card at index `k`; `won` tells whether it won the game. */
    method FlipCard(k: nat) returns (won: bool)
      requires Valid() && k < |states|
      modifies this
      ensures Valid()
      ensures (Snapshot(), won) == AfterFlip(old(Snapshot()), cards[..], k)
    {
      ghost var s0, deck := Snapshot(), cards[..];
      won := false;
      if gameStarted && |flippedCards| != 2 {
        if states[k] == Down {
          TurnedUpConsistent(s0, deck, k);
          states := states[k := Up];
          flippedCards := flippedCards + [k];
          if |flippedCards| == 2 {
            moves := moves + 1;
            assert Snapshot() == TurnedUp(s0, k);
            won := CheckForMatch();
          }
        }
      }
      assert cards[..] == deck;
      FlipInv(s0, deck, k);
    }

    method CheckForMatch() returns (won: bool)
      requires Consistent(Snapshot(), cards[..]) && |flippedCards| == 2
      modifies this
      ensures Valid()
      ensures (Snapshot(), won) == AfterCheck(old(Snapshot()), cards[..])
    {
      CheckInv(Snapshot(), cards[..]);
      var first, second := flippedCards[0], flippedCards[1];
      if cards[first] == cards[second] {
        states := states[first := Matched][second := Matched];
        matchedPairs := matchedPairs + 1;
        flippedCards := [];
        won := matchedPairs == cards.Length / 2;
        if won {
          timerRunning := false;
        }
      } else {
        won := false;
      }
    }

    /** The deferred step of a mismatch. */
    method FireMismatchTimeout()
      requires Valid() && |flippedCards| == 2
      modifies this`states, this`flippedCards
      ensures Valid()
      ensures Snapshot() == AfterTimeout(old(Snapshot()))
    {
      TimeoutInv(Snapshot(), cards[..]);
      states := states[flippedCards[0] := Down][flippedCards[1] := Down];
      flippedCards := [];
    }
  }
}
