/** Building and shuffling the deck (generateDeck). */
module Deck {
  import opened Cards

  /** Puts the cards of `a` into some order of its choosing. Each step swaps
      the card at `i` with an arbitrarily chosen later one, so every
      permutation of the deck can come out; which one does is left open. */
  method Shuffle(a: array<Card>)
    modifies a
    ensures multiset(a[..]) == old(multiset(a[..]))
  {
    var i := 0;
    while i < a.Length
      invariant 0 <= i <= a.Length
      invariant multiset(a[..]) == old(multiset(a[..]))
    {
      var j :| i <= j < a.Length;
      a[i], a[j] := a[j], a[i];
      i := i + 1;
    }
  }

  /** Pushes two unmatched cards of every palette colour, then shuffles
      them: the result holds two cards of each of the four colours. */
  method GenerateDeck() returns (deck: seq<Card>)
    ensures Dealt(deck)
  {
    var cards: seq<Card> := [];
    for k := 0 to |PALETTE|
      invariant cards == Pairs(PALETTE[..k])
    {
      assert PALETTE[..k + 1][..k] == PALETTE[..k];
      cards := cards + [Card(PALETTE[k], false)];
      cards := cards + [Card(PALETTE[k], false)];
    }
    assert PALETTE[..|PALETTE|] == PALETTE;
    PalettePairsDealt();
    var a := new Card[|cards|](i requires 0 <= i < |cards| => cards[i]);
    assert a[..] == cards;
    Shuffle(a);
    deck := a[..];
    PermutationKeepsDealt(deck, cards);
  }
}
