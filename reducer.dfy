/** The game state and the reducer (gameReducer): a pure transition
    function from a state and an action to the next state. */
module Reducer {
  import opened Counting
  import opened Cards

  /** The whole game state. `flipped` holds deck positions, `matched` the
      colours whose pair has been found, in the order they were found. */
  datatype GameState = GameState(
    deck: seq<Card>,
    flipped: seq<nat>,
    matched: seq<Color>,
    turns: nat,
    score: nat,
    pendingReset: bool,
    gameOver: bool)

  /** The actions the reducer understands; `Unknown` stands for every action
      whose type is none of the five others. */
  datatype Action =
    | FlipCard(index: nat)
    | CheckMatch
    | ResetFlipped
    | IncrementTurn
    | ResetGame
    | Unknown

  /** The state a game starts in, around a given deck. */
  function InitialState(deck: seq<Card>): GameState {
    GameState(deck, [], [], 0, 0, false, false)
  }

  /** What the reducer needs of an action to be defined: a flipped card must
      lie on the deck, and a match check needs two flipped cards on it. */
  predicate Enabled(s: GameState, a: Action) {
    match a
    case FlipCard(i) => i < |s.deck|
    case CheckMatch => |s.flipped| == 2 && s.flipped[0] < |s.deck| && s.flipped[1] < |s.deck|
    case _ => true
  }

  /** The guard under which a card is turned face up. */
  predicate MayFlip(s: GameState, i: nat)
    requires i < |s.deck|
  {
    |s.flipped| < 2 && i !in s.flipped && s.deck[i].color !in s.matched
  }

  /** One reducer step. `dealt` is the deck that generating a deck returns
      during this step; only `ResetGame` uses it. */
  function Reduce(s: GameState, a: Action, dealt: seq<Card>): (r: GameState)
    requires Enabled(s, a)
    ensures !a.ResetGame? ==> r.deck == s.deck && r.turns >= s.turns && s.matched <= r.matched
  {
    match a
    case FlipCard(i) =>
      if MayFlip(s, i) then s.(flipped := s.flipped + [i]) else s
    case CheckMatch =>
      var first, second := s.flipped[0], s.flipped[1];
      if s.deck[first].color == s.deck[second].color then
        var newMatched := s.matched + [s.deck[first].color];
        // `newMatched.length === deck.length / 2`, with exact division
        var isGameOver := 2 * |newMatched| == |s.deck|;
        s.(matched := newMatched,
           score := if isGameOver then s.score + 1 else s.score,
           flipped := [],
           pendingReset := false,
           gameOver := isGameOver)
      else
        s.(pendingReset := true)
    case ResetFlipped => s.(flipped := [], pendingReset := false)
    case IncrementTurn => s.(turns := s.turns + 1)
    case ResetGame => InitialState(dealt)
    case Unknown => s
  }

  // ---------------------------------------------------------------------
  // What each action does

  /** A flip adds the card exactly when fewer than two cards are up, the card
      is not up already and its colour is not matched; otherwise nothing
      changes. */
  lemma FlipCardEffect(s: GameState, i: nat, dealt: seq<Card>)
    requires i < |s.deck|
    ensures var r := Reduce(s, FlipCard(i), dealt);
      (r.flipped == s.flipped + [i] <==> (|s.flipped| < 2 && i !in s.flipped && s.deck[i].color !in s.matched))
      && r == s.(flipped := r.flipped)
      && (r.flipped == s.flipped + [i] || r == s)
  {
  }

  /** Flipping the same card twice is the same as flipping it once. */
  lemma FlipCardIdempotent(s: GameState, i: nat, dealt: seq<Card>)
    requires i < |s.deck|
    ensures Reduce(Reduce(s, FlipCard(i), dealt), FlipCard(i), dealt) == Reduce(s, FlipCard(i), dealt)
  {
  }

  /** Two face-up cards of one colour: the colour joins `matched`, both cards
      go down, a pending reset is dropped, the game is over exactly when half
      the deck's size in colours is matched, and the score goes up by one only
      when that match ends the game. Deck and turns stay. */
  lemma CheckMatchOnPair(s: GameState, dealt: seq<Card>)
    requires Enabled(s, CheckMatch)
    requires s.deck[s.flipped[0]].color == s.deck[s.flipped[1]].color
    ensures var r := Reduce(s, CheckMatch, dealt);
      r.matched == s.matched + [s.deck[s.flipped[0]].color]
      && r.flipped == [] && !r.pendingReset
      && (r.gameOver <==> 2 * |r.matched| == |s.deck|)
      && r.score == (if r.gameOver then s.score + 1 else s.score)
      && r.deck == s.deck && r.turns == s.turns
  {
  }

  /** Two face-up cards of different colours: only `pendingReset` changes,
      to true; the cards stay up. */
  lemma CheckMatchOnMismatch(s: GameState, dealt: seq<Card>)
    requires Enabled(s, CheckMatch)
    requires s.deck[s.flipped[0]].color != s.deck[s.flipped[1]].color
    ensures Reduce(s, CheckMatch, dealt) == s.(pendingReset := true)
  {
  }

  /** Turning the cards down clears `flipped` and `pendingReset` only. */
  lemma ResetFlippedEffect(s: GameState, dealt: seq<Card>)
    ensures var r := Reduce(s, ResetFlipped, dealt);
      r.flipped == [] && !r.pendingReset && r == s.(flipped := [], pendingReset := false)
  {
  }

  /** Counting a turn adds exactly one to `turns` and changes nothing else. */
  lemma IncrementTurnEffect(s: GameState, dealt: seq<Card>)
    ensures var r := Reduce(s, IncrementTurn, dealt);
      r.turns == s.turns + 1 && r == s.(turns := r.turns)
  {
  }

  /** A restart puts the new deck into an otherwise initial state. */
  lemma ResetGameEffect(s: GameState, dealt: seq<Card>)
    ensures var r := Reduce(s, ResetGame, dealt);
      r.deck == dealt && r.flipped == [] && r.matched == [] && r.turns == 0
      && r.score == 0 && !r.pendingReset && !r.gameOver
  {
  }

  /** An action of any other type leaves the state as it is. */
  lemma UnknownIsNoOp(s: GameState, dealt: seq<Card>)
    ensures Reduce(s, Unknown, dealt) == s
  {
  }

  // ---------------------------------------------------------------------
  // The invariant of every reachable state

  /** The invariant every state reached from a dealt deck keeps. */
  ghost predicate Inv(s: GameState) {
    // the deck: every colour on it is on exactly two cards
    Paired(s.deck) && |s.deck| > 0
    // at most two face-up cards, no position twice, none of a matched colour
    && |s.flipped| <= 2 && Distinct(s.flipped)
    && (forall k :: 0 <= k < |s.flipped| ==>
          s.flipped[k] < |s.deck| && s.deck[s.flipped[k]].color !in s.matched)
    // matched colours: each once, each on the deck
    && Distinct(s.matched)
    && (forall k :: 0 <= k < |s.matched| ==> s.matched[k] in DeckColors(s.deck))
    // a pending reset waits on two face-up cards of different colours
    && (s.pendingReset ==>
          |s.flipped| == 2 && s.deck[s.flipped[0]].color != s.deck[s.flipped[1]].color)
    // the game is over when half the deck's size in colours is matched
    && (s.gameOver <==> 2 * |s.matched| == |s.deck|)
    // the score is 1 for a won game and 0 otherwise
    && s.score == (if s.gameOver then 1 else 0)
  }

  /** A game started around a paired, non-empty deck satisfies the invariant. */
  lemma InitialStateInv(deck: seq<Card>)
    requires Paired(deck) && |deck| > 0
    ensures Inv(InitialState(deck))
  {
  }

  /** In a reachable state the game is over exactly when every colour on the
      deck has been matched. */
  lemma GameOverIffAllMatched(s: GameState)
    requires Inv(s)
    ensures s.gameOver <==> Elements(s.matched) == DeckColors(s.deck)
  {
    DistinctSize(s.matched);
    PairedSize(s.deck);
    assert Elements(s.matched) <= DeckColors(s.deck) by {
      forall c | c in Elements(s.matched) ensures c in DeckColors(s.deck) {
        var k :| 0 <= k < |s.matched| && s.matched[k] == c;
      }
    }
    SubsetSize(Elements(s.matched), DeckColors(s.deck));
  }

  /** Never more colours are matched than the deck holds pairs, and the score
      never exceeds that number either. */
  lemma MatchedBound(s: GameState)
    requires Inv(s)
    ensures 2 * |s.matched| <= |s.deck|
    ensures 2 * s.score <= |s.deck|
  {
    DistinctSize(s.matched);
    PairedSize(s.deck);
    assert Elements(s.matched) <= DeckColors(s.deck) by {
      forall c | c in Elements(s.matched) ensures c in DeckColors(s.deck) {
        var k :| 0 <= k < |s.matched| && s.matched[k] == c;
      }
    }
    SubsetSize(Elements(s.matched), DeckColors(s.deck));
    assert |s.deck| % 2 == 0;
  }

  /** A face-up card shows a colour of the deck that is not yet matched. */
  lemma FlippedColorUnmatched(s: GameState, k: nat)
    requires Inv(s) && k < |s.flipped|
    ensures s.deck[s.flipped[k]].color in DeckColors(s.deck)
    ensures s.deck[s.flipped[k]].color !in Elements(s.matched)
  {
  }

  /** Once the game is won no card is face up, so no match check can follow. */
  lemma GameOverNoFlipped(s: GameState)
    requires Inv(s) && s.gameOver
    ensures s.flipped == []
  {
    GameOverIffAllMatched(s);
    if s.flipped != [] {
      FlippedColorUnmatched(s, 0);
      assert false;
    }
  }

  /** Once the game is won, no flip has any effect. */
  lemma GameOverFreezesBoard(s: GameState, i: nat, dealt: seq<Card>)
    requires Inv(s) && s.gameOver && i < |s.deck|
    ensures Reduce(s, FlipCard(i), dealt) == s
    ensures !Enabled(s, CheckMatch)
  {
    GameOverIffAllMatched(s);
    assert s.deck[i].color in DeckColors(s.deck);
    assert s.deck[i].color in Elements(s.matched);
    GameOverNoFlipped(s);
  }

  /** Every action keeps the invariant, a restart provided its new deck is a
      paired, non-empty one. */
  lemma ReducePreservesInv(s: GameState, a: Action, dealt: seq<Card>)
    requires Inv(s) && Enabled(s, a)
    requires a.ResetGame? ==> Paired(dealt) && |dealt| > 0
    ensures Inv(Reduce(s, a, dealt))
  {
    match a
    case FlipCard(i) =>
      if MayFlip(s, i) {
        var r := Reduce(s, a, dealt);
        assert r.flipped == s.flipped + [i];
        assert !s.pendingReset;
      }
    case CheckMatch =>
      if s.gameOver {
        GameOverNoFlipped(s);
      }
      var c := s.deck[s.flipped[0]].color;
      if c == s.deck[s.flipped[1]].color {
        var r := Reduce(s, a, dealt);
        assert r.matched == s.matched + [c];
        assert c !in s.matched;
        assert c in DeckColors(s.deck);
      }
    case ResetFlipped =>
    case IncrementTurn =>
    case ResetGame =>
      InitialStateInv(dealt);
    case Unknown =>
  }
}
