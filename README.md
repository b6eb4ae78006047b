# Memory game: a verified model of the game logic

This project models the logic of a small memory-matching card game (a
Telegram Mini App written in React). A deck of eight cards holds two cards
of each of four colours. The player turns up two cards per turn. A pair of
one colour stays face up for good; two different colours are turned down
again after a short delay. The game is won when every colour is matched,
and the end screen also appears once 15 turns have been played.

The model has four parts, all taken from `src/App.jsx`:

- `Cards` (cards.dfy): the four colours and their colour strings, the card
  record, the unshuffled deck (`Pairs`), and the deck properties `Dealt`
  (eight cards, two of each colour, none matched) and `Paired` (every
  colour on the deck is on exactly two cards).
- `Deck` (deck.dfy): `generateDeck` as a method. A loop appends two cards
  per palette colour, and then the cards are put into some order, in place,
  in an array.
- `Reducer` (reducer.dfy): the game state, the actions and the reducer
  `Reduce` as a pure function. There is one lemma per action outcome (a
  matching and a missed pair of `CheckMatch` each have their own), the
  state invariant `Inv`, and the proof that every action keeps it.
- `App` (app.dfy): the logic of the presentation layer. This covers the
  click guard (`CanClick`, `HandleCardClick`), which cards are face up
  (`IsShown`), the end screen (`ShowEndScreen`, `TURN_LIMIT`), and the step
  taken when two cards are up (`TurnStep`: check the pair, then count the
  turn). It also covers starting a game (`NewGame`) and "play again"
  (`PlayAgain`). A concrete short game is worked through in `ShortGame`.
- `Counting` (counting.dfy) holds general counting lemmas on sequences,
  sets and multisets. The invariant's proofs use them.

Modelling decisions:

- Colours are an enumeration. `Hex` maps each one to the colour string the
  code uses, and `HexInjective` shows that comparing strings is the same as
  comparing colours.
- The shuffle sorts with a random comparator. It is modelled as a sequence
  of swaps whose partners are chosen arbitrarily, so any permutation can
  come out. Its contract says only that the result is a permutation.
- In the source the reducer calls `generateDeck()` itself on `RESET_GAME`.
  In the model, `Reduce` takes that deck as the parameter `dealt`. Only
  `ResetGame` reads it. `PlayAgain` and `NewGame` draw it from
  `Deck.GenerateDeck`.
- The code tests `newMatched.length === deck.length / 2`, which uses exact
  division. The model writes this as `2 * |newMatched| == |deck|`, which
  agrees for odd deck lengths too.
- `FLIP_CARD` reads `deck[index]`, and `CHECK_MATCH` reads `flipped[0]` and
  `flipped[1]`. The `Enabled` precondition therefore asks for an index on
  the deck, and for exactly two face-up cards on the deck. The app only
  dispatches these actions in those situations.

Two behaviours of the code are kept as written, though a reader might
expect otherwise:

- The score goes up only on the match that wins the game, not on every
  match. In every reachable state the score is therefore 1 for a won game
  and 0 otherwise. This is part of `Inv`, and `ShortGame` shows it.
- `matched` is a list of colours in the order they were found, not a set.
  `Inv` states that the list has no repetitions.

## Model

| member | source | states |
|---|---|---|
| Cards.Hex | src/App.jsx:7 | defines the colour string of each of the four palette colours |
| Cards.Pairs | src/App.jsx:8-12 | defines the deck the push loop builds: for each colour in order, two unmatched cards of that colour |
| Cards.HexInjective | src/App.jsx:7 | two colour strings are equal exactly when the colours are equal |
| Cards.PairsContents | src/App.jsx:8-12 | the pair-building loop's deck has two cards per listed colour, all unmatched, twice as many cards as colours |
| Cards.PalettePairsDealt | src/App.jsx:7-12 | the unshuffled deck of the four-colour palette has 8 cards, none matched, each colour exactly twice |
| Cards.PermutationKeepsColors | src/App.jsx:13 | reordering the cards reorders the colours (same multiset of colours) |
| Cards.PermutationKeepsDealt | src/App.jsx:13 | any reordering of a dealt deck is still dealt: 8 cards, none matched, two per colour |
| Deck.Shuffle | src/App.jsx:13 | the array afterwards holds a permutation of its cards |
| Deck.GenerateDeck | src/App.jsx:6-14 | the generated deck has 8 cards, none matched, and each of the 4 colours exactly twice, whatever the permutation |
| Reducer.InitialState | src/App.jsx:16-24 | defines the initial state around a deck: no cards up, no colours matched, zero turns and score, no pending reset, game not over |
| Reducer.MayFlip | src/App.jsx:29-33 | defines the flip guard: fewer than 2 cards up, the index not up, its colour not matched |
| Reducer.Reduce | src/App.jsx:26-70 | every action but a restart keeps the deck, never lowers `turns` and only extends `matched` |
| Reducer.FlipCardEffect | src/App.jsx:28-36 | a flip appends the index exactly when fewer than 2 cards are up, the index is not up and its colour is not matched; otherwise the state is unchanged |
| Reducer.FlipCardIdempotent | src/App.jsx:28-36 | flipping the same card again changes nothing |
| Reducer.CheckMatchOnPair | src/App.jsx:38-50 | for a pair, the colour is appended to `matched`, no card is up, no reset is pending, the game is over iff matched colours make half the deck, and the score rises by one only if that happens |
| Reducer.CheckMatchOnMismatch | src/App.jsx:51-53 | for two different colours only `pendingReset` changes, to true |
| Reducer.ResetFlippedEffect | src/App.jsx:55-56 | no card is up, no reset is pending, and nothing else changes |
| Reducer.IncrementTurnEffect | src/App.jsx:58-59 | `turns` rises by exactly one and nothing else changes |
| Reducer.ResetGameEffect | src/App.jsx:61-65 | a restart gives the new deck, no flips or matches, zero turns and score, no pending reset, game not over |
| Reducer.UnknownIsNoOp | src/App.jsx:67-68 | an action of any other type returns the state unchanged |
| Reducer.InitialStateInv | src/App.jsx:16-24 | the initial state around a paired deck satisfies the invariant |
| Reducer.GameOverIffAllMatched | src/App.jsx:41-49 | in a reachable state the game is over exactly when every colour of the deck is matched |
| Reducer.MatchedBound | src/App.jsx:41-46 | at most half the deck's size in colours is matched, and the score is bounded by the same number |
| Reducer.FlippedColorUnmatched | src/App.jsx:29-34 | a face-up card shows a colour of the deck that is not matched |
| Reducer.GameOverNoFlipped | src/App.jsx:29-50 | in a won game no card is up, so no match check can be dispatched |
| Reducer.GameOverFreezesBoard | src/App.jsx:29-36 | in a won game every flip is a no-op and no match check is enabled |
| Reducer.ReducePreservesInv | src/App.jsx:26-70 | every action keeps the invariant: at most 2 distinct face-up cards, none of a matched colour, distinct matched colours all on the deck, pending reset only on two different colours, game over iff half the deck's size in colours is matched, score 1 iff won |
| App.HandleCardClick | src/App.jsx:112-120 | a click turns the card up exactly when the game is not won, fewer than 2 cards are up, the card is not up and its colour is not matched; otherwise nothing changes |
| App.CanClick | src/App.jsx:113-117 | defines the click guard: game not won, fewer than 2 cards up, the clicked index not up |
| App.IsShown | src/App.jsx:138-139 | defines visibility: a card is face up when its index is flipped or its colour is matched |
| App.ShowEndScreen | src/App.jsx:148 | defines the end-screen condition: the game is won or at least 15 turns have been played |
| App.ClickPreservesInv | src/App.jsx:112-120 | a click keeps the invariant |
| App.ClickShowsCard | src/App.jsx:137-139 | a card a click is allowed to turn up is shown afterwards |
| App.MatchedStaysShown | src/App.jsx:137-139 | a card of a matched colour stays shown through every action except a restart |
| App.ResetHidesAll | src/App.jsx:137-139 | after a restart no card is shown |
| App.WonShowsAll | src/App.jsx:138-139 | in a won game every card is shown |
| App.EndScreenPersists | src/App.jsx:148 | once the end screen shows (won, or at least 15 turns), every action except a restart keeps it showing |
| App.WonIgnoresClicks | src/App.jsx:113-114 | after a win a click changes nothing |
| App.TurnStep | src/App.jsx:76-81 | with two cards up the deck stays and exactly one turn is counted; with any other number of cards up the state is returned unchanged |
| App.TurnStepOnPair | src/App.jsx:77-80 | a matching pair is matched, put down and counted as a turn; the game is then over iff every deck colour is matched, and the score is 1 iff it is |
| App.TurnStepOnMismatch | src/App.jsx:77-80 | a missed pair stays up with a pending reset and one more turn, and nothing else changes |
| App.TurnStepPreservesInv | src/App.jsx:76-81 | the check-then-count step keeps the invariant |
| App.MismatchCostsOneTurn | src/App.jsx:84-91 | a missed pair followed by its reset leaves no card up and one more turn, and nothing else changes |
| App.ShortGame | src/App.jsx:26-70 | on deck A B A B: a miss, then both pairs; the first match leaves the score at 0 and the winning match sets it to 1 after 3 turns |
| App.NewGame | src/App.jsx:16-24 | the first state holds a dealt deck, is the initial state and satisfies the invariant |
| App.PlayAgain | src/App.jsx:122-124 | "play again" is the reducer's restart with a freshly dealt deck, and the result satisfies the invariant |

## Left out

- React plumbing (`useReducer`, the effects' dependency tracking, JSX rendering and CSS classes) is left out. The effect that fires when two cards are up is kept as the sequential step `TurnStep`. In the app that effect runs only when `flipped` becomes a new pair of cards: after a miss the state keeps the same `flipped` list, so the effect does not fire again. `TurnStep` itself does not know this and would count another turn if applied again to a missed pair still face up. The model counts one turn per new pair of face-up cards only through how `TurnStep` is used, as `MismatchCostsOneTurn` does with its `!s.pendingReset` premise.
- The one-second timer that dispatches `RESET_FLIPPED` after a miss, and its cancellation, are left out because they are time- and callback-driven. `MismatchCostsOneTurn` covers the state the reset leads to.
- The Telegram WebApp calls (`ready`, `expand`) and the checks for their presence are left out, because they are foreign host API calls.
- The `VITE_APP_BASE_URL` variable and the console diagnostics are left out, because they are I/O only.
- Deck.Shuffle: does not model how `Math.random` drives the comparator sort or how fair the resulting order is, because that is randomness and floating point. Any permutation may come out.
- The per-card `matched` flag is modelled and starts false, but no code ever changes it. Matching is tracked only in the state's `matched` list.
- The 15-turn limit only decides whether the end screen shows (`ShowEndScreen`). The click handler does not check it. Whether the overlay then blocks clicks is a matter of layout, which is not modelled.
- `turns` and `score` are unbounded naturals. JavaScript numbers lose integer precision above 2^53, which a 15-turn game cannot reach, so the model does not bound them.
