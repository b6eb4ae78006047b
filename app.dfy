/** The app around the reducer: the click guard, which cards are shown, the
    end screen, the "check, then count the turn" step, and starting or
    restarting a game with a freshly generated deck. */
module App {
  import opened Counting
  import opened Cards
  import opened Reducer
  import Deck

  /** The number of turns after which the game ends even if not won. */
  const TURN_LIMIT: nat := 15

  /** A click reaches the reducer only while the game is not won, fewer than
      two cards are up and the clicked card is not among them. */
  predicate CanClick(s: GameState, i: nat) {
    !s.gameOver && |s.flipped| < 2 && i !in s.flipped
  }

  /** A click on card `i`: the guard, then a flip. The card is turned up
      exactly when the game is not won, fewer than two cards are up, the card
      is not up and its colour is not matched; otherwise nothing changes. */
  function HandleCardClick(s: GameState, i: nat): (r: GameState)
    requires i < |s.deck|
    ensures r == s.(flipped := s.flipped + [i]) <==>
      (!s.gameOver && |s.flipped| < 2 && i !in s.flipped && s.deck[i].color !in s.matched)
    ensures r == s || r == s.(flipped := s.flipped + [i])
  {
    if CanClick(s, i) then Reduce(s, FlipCard(i), []) else s
  }

  /** Card `i` is shown face up when it is flipped or its colour is matched. */
  predicate IsShown(s: GameState, i: nat)
    requires i < |s.deck|
  {
    i in s.flipped || s.deck[i].color in s.matched
  }

  /** The end screen appears once the game is won or the turns are used up. */
  predicate ShowEndScreen(s: GameState) {
    s.gameOver || s.turns >= TURN_LIMIT
  }

  /** The step taken whenever exactly two cards are up: check them, then count
      the turn. Any other state is left alone. */
  function TurnStep(s: GameState): (r: GameState)
    requires forall k :: 0 <= k < |s.flipped| ==> s.flipped[k] < |s.deck|
    ensures r.deck == s.deck
    ensures r.turns == if |s.flipped| == 2 then s.turns + 1 else s.turns
    ensures |s.flipped| != 2 ==> r == s
  {
    if |s.flipped| == 2 then
      Reduce(Reduce(s, CheckMatch, []), IncrementTurn, [])
    else
      s
  }

  // ---------------------------------------------------------------------
  // Properties of clicks and of the visible board

  /** A click keeps the invariant. */
  lemma ClickPreservesInv(s: GameState, i: nat)
    requires Inv(s) && i < |s.deck|
    ensures Inv(HandleCardClick(s, i))
  {
  }

  /** A card that a click turns up is shown. */
  lemma ClickShowsCard(s: GameState, i: nat)
    requires i < |s.deck| && CanClick(s, i)
    ensures IsShown(HandleCardClick(s, i), i)
  {
  }

  /** A card whose colour is matched stays shown through every action but a
      restart. */
  lemma MatchedStaysShown(s: GameState, a: Action, dealt: seq<Card>, i: nat)
    requires Enabled(s, a) && !a.ResetGame?
    requires i < |s.deck| && s.deck[i].color in s.matched
    ensures IsShown(Reduce(s, a, dealt), i)
  {
  }

  /** After a restart every card is face down. */
  lemma ResetHidesAll(s: GameState, dealt: seq<Card>, i: nat)
    requires i < |dealt|
    ensures !IsShown(Reduce(s, ResetGame, dealt), i)
  {
  }

  /** In a won game every card is shown. */
  lemma WonShowsAll(s: GameState, i: nat)
    requires Inv(s) && s.gameOver && i < |s.deck|
    ensures IsShown(s, i)
  {
    GameOverIffAllMatched(s);
    assert s.deck[i].color in DeckColors(s.deck);
    assert s.deck[i].color in Elements(s.matched);
  }

  /** Once shown, the end screen stays until the game is restarted. */
  lemma EndScreenPersists(s: GameState, a: Action, dealt: seq<Card>)
    requires Inv(s) && Enabled(s, a) && !a.ResetGame?
    requires ShowEndScreen(s)
    ensures ShowEndScreen(Reduce(s, a, dealt))
  {
    if s.gameOver && a.CheckMatch? {
      GameOverNoFlipped(s);
    }
  }

  /** Clicks are ignored once the end screen shows a won game. */
  lemma WonIgnoresClicks(s: GameState, i: nat)
    requires i < |s.deck| && s.gameOver
    ensures HandleCardClick(s, i) == s
  {
  }

  // ---------------------------------------------------------------------
  // Properties of the turn step

  /** A turn with a matching pair: the colour is matched, the cards go down,
      the turn is counted, and the game is over exactly when every colour of
      the deck is matched; the score rises only if the game is now won. */
  lemma TurnStepOnPair(s: GameState)
    requires Inv(s) && |s.flipped| == 2
    requires s.deck[s.flipped[0]].color == s.deck[s.flipped[1]].color
    ensures var r := TurnStep(s);
      r.matched == s.matched + [s.deck[s.flipped[0]].color]
      && r.flipped == [] && !r.pendingReset && r.turns == s.turns + 1
      && (r.gameOver <==> Elements(r.matched) == DeckColors(r.deck))
      && r.score == (if r.gameOver then 1 else 0)
  {
    ReducePreservesInv(s, CheckMatch, []);
    var m := Reduce(s, CheckMatch, []);
    ReducePreservesInv(m, IncrementTurn, []);
    GameOverIffAllMatched(TurnStep(s));
  }

  /** A turn with two different colours: the cards stay up, a reset becomes
      pending and the turn is counted; nothing else changes. */
  lemma TurnStepOnMismatch(s: GameState)
    requires |s.flipped| == 2 && s.flipped[0] < |s.deck| && s.flipped[1] < |s.deck|
    requires s.deck[s.flipped[0]].color != s.deck[s.flipped[1]].color
    ensures TurnStep(s) == s.(pendingReset := true, turns := s.turns + 1)
  {
  }

  /** The turn step keeps the invariant. */
  lemma TurnStepPreservesInv(s: GameState)
    requires Inv(s)
    ensures Inv(TurnStep(s))
  {
    if |s.flipped| == 2 {
      ReducePreservesInv(s, CheckMatch, []);
      ReducePreservesInv(Reduce(s, CheckMatch, []), IncrementTurn, []);
    }
  }

  /** A missed pair, once its reset has run, costs exactly one turn: the
      board is back to no cards up and nothing else has changed. */
  lemma MismatchCostsOneTurn(s: GameState)
    requires Inv(s) && |s.flipped| == 2 && !s.pendingReset
    requires s.deck[s.flipped[0]].color != s.deck[s.flipped[1]].color
    ensures Reduce(TurnStep(s), ResetFlipped, []) == s.(flipped := [], turns := s.turns + 1)
  {
  }

  /** A short game on the deck A B A B (A olive, B khaki): a missed pair,
      then the two pairs. The first pair found leaves the score at 0; only
      the pair that wins the game raises it, to 1. */
  lemma ShortGame()
    ensures
      var deck := [Card(OliveDrab, false), Card(Khaki, false), Card(OliveDrab, false), Card(Khaki, false)];
      var miss := TurnStep(HandleCardClick(HandleCardClick(InitialState(deck), 0), 1));
      var down := Reduce(miss, ResetFlipped, []);
      var first := TurnStep(HandleCardClick(HandleCardClick(down, 0), 2));
      var last := TurnStep(HandleCardClick(HandleCardClick(first, 1), 3));
      miss.flipped == [0, 1] && miss.pendingReset && miss.turns == 1
      && down.flipped == [] && !down.pendingReset
      && first.matched == [OliveDrab] && first.flipped == [] && first.score == 0 && !first.gameOver
      && last.matched == [OliveDrab, Khaki] && last.score == 1 && last.gameOver && last.turns == 3
  {
  }

  // ---------------------------------------------------------------------
  // Starting and restarting a game

  /** The first state: a generated deck and everything else at its start
      value. */
  method NewGame() returns (s: GameState)
    ensures s == InitialState(s.deck) && Dealt(s.deck) && Inv(s)
  {
    var deck := Deck.GenerateDeck();
    DealtIsPaired(deck);
    InitialStateInv(deck);
    s := InitialState(deck);
  }

  /** "Play again": the reducer's restart with a freshly generated deck. */
  method PlayAgain(s: GameState) returns (r: GameState)
    ensures r == Reduce(s, ResetGame, r.deck) && Dealt(r.deck) && Inv(r)
  {
    var deck := Deck.GenerateDeck();
    DealtIsPaired(deck);
    InitialStateInv(deck);
    r := Reduce(s, ResetGame, deck);
  }
}
