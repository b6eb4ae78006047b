/** The cards of the memory game: the four colours, the card record, and
    what it means for a deck to hold two cards of every colour. */
module Cards {
  import opened Counting

  /** The four card colours; `Hex` gives the colour string each stands for. */
  datatype Color = OliveDrab | Khaki | White | Brown

  /** The CSS colour string the game attaches to each colour. */
  function Hex(c: Color): string {
    match c
    case OliveDrab => "#6B8E23"
    case Khaki => "#cdd28c"
    case White => "#FFFFFF"
    case Brown => "#A52A2A"
  }

  /** The colour strings are pairwise different, so the game's comparison of
      colour strings is exactly a comparison of colours. */
  lemma HexInjective(c: Color, d: Color)
    ensures Hex(c) == Hex(d) <==> c == d
  {
  }

  /** The palette, in the order in which the deck is built. */
  const PALETTE: seq<Color> := [OliveDrab, Khaki, White, Brown]

  /** A card: its colour and the `matched` flag it is created with. */
  datatype Card = Card(color: Color, matched: bool)

  /** The colours of a deck, position by position. */
  function ColorsOf(deck: seq<Card>): (cs: seq<Color>)
    ensures |cs| == |deck|
    ensures forall i :: 0 <= i < |deck| ==> cs[i] == deck[i].color
  {
    seq(|deck|, i requires 0 <= i < |deck| => deck[i].color)
  }

  /** The colours that occur in a deck. */
  function DeckColors(deck: seq<Card>): set<Color> {
    set i | 0 <= i < |deck| :: deck[i].color
  }

  /** Every colour that occurs in the deck occurs on exactly two cards. */
  predicate Paired(deck: seq<Card>) {
    forall i :: 0 <= i < |deck| ==> multiset(ColorsOf(deck))[deck[i].color] == 2
  }

  /** A freshly dealt deck: two cards per palette colour, none matched. */
  predicate Dealt(deck: seq<Card>) {
    |deck| == 2 * |PALETTE|
    && (forall i :: 0 <= i < |deck| ==> !deck[i].matched)
    && (forall c: Color :: multiset(ColorsOf(deck))[c] == 2)
  }

  /** The unshuffled deck: two unmatched cards for each colour, in order. */
  function Pairs(colors: seq<Color>): seq<Card> {
    if colors == [] then []
    else
      var last := colors[|colors| - 1];
      Pairs(colors[..|colors| - 1]) + [Card(last, false), Card(last, false)]
  }

  lemma ColorsOfAppend(a: seq<Card>, b: seq<Card>)
    ensures ColorsOf(a + b) == ColorsOf(a) + ColorsOf(b)
  {
  }

  /** `Pairs` puts two unmatched cards of every listed colour in the deck. */
  lemma {:induction false} PairsContents(colors: seq<Color>)
    ensures |Pairs(colors)| == 2 * |colors|
    ensures forall i :: 0 <= i < |Pairs(colors)| ==> !Pairs(colors)[i].matched
    ensures multiset(ColorsOf(Pairs(colors))) == multiset(colors) + multiset(colors)
  {
    if colors != [] {
      var init, last := colors[..|colors| - 1], colors[|colors| - 1];
      PairsContents(init);
      var pair := [Card(last, false), Card(last, false)];
      ColorsOfAppend(Pairs(init), pair);
      assert ColorsOf(pair) == [last, last];
      assert colors == init + [last];
      assert multiset(colors) == multiset(init) + multiset{last};
    }
  }

  /** The palette lists each colour once. */
  lemma PaletteOnce(c: Color)
    ensures multiset(PALETTE)[c] == 1
  {
    match c
    case OliveDrab =>
    case Khaki =>
    case White =>
    case Brown =>
  }

  /** The unshuffled deck of the palette is a freshly dealt deck. */
  lemma PalettePairsDealt()
    ensures Dealt(Pairs(PALETTE))
  {
    PairsContents(PALETTE);
    forall c: Color ensures multiset(ColorsOf(Pairs(PALETTE)))[c] == 2 {
      PaletteOnce(c);
    }
  }

  /** Reordering the cards of a deck reorders its colours. */
  lemma {:induction false} PermutationKeepsColors(s: seq<Card>, t: seq<Card>)
    requires multiset(s) == multiset(t)
    ensures multiset(ColorsOf(s)) == multiset(ColorsOf(t))
    decreases |s|
  {
    if s == [] {
      assert |t| == |multiset(t)| == 0;
    } else {
      var x := s[0];
      assert x in multiset(t);
      var j :| 0 <= j < |t| && t[j] == x;
      var t' := t[..j] + t[j + 1..];
      assert t == t[..j] + [x] + t[j + 1..];
      assert s == [x] + s[1..];
      assert multiset(s[1..]) == multiset(s) - multiset{x};
      assert multiset(t') == multiset(t) - multiset{x};
      PermutationKeepsColors(s[1..], t');
      ColorsOfAppend([x], s[1..]);
      ColorsOfAppend(t[..j], t[j + 1..]);
      ColorsOfAppend(t[..j] + [x], t[j + 1..]);
      ColorsOfAppend(t[..j], [x]);
    }
  }

  /** A reordering of a freshly dealt deck is a freshly dealt deck. */
  lemma PermutationKeepsDealt(s: seq<Card>, t: seq<Card>)
    requires multiset(s) == multiset(t) && Dealt(t)
    ensures Dealt(s)
  {
    PermutationKeepsColors(s, t);
    assert |s| == |multiset(s)| == |multiset(t)| == |t|;
    forall i | 0 <= i < |s| ensures !s[i].matched {
      assert s[i] in multiset(t);
    }
  }

  /** A freshly dealt deck holds all four colours, each twice. */
  lemma DealtIsPaired(deck: seq<Card>)
    requires Dealt(deck)
    ensures Paired(deck) && |deck| > 0
    ensures DeckColors(deck) == {OliveDrab, Khaki, White, Brown}
  {
  }

  /** A paired deck has exactly two cards per colour it holds. */
  lemma PairedSize(deck: seq<Card>)
    requires Paired(deck)
    ensures |deck| == 2 * |DeckColors(deck)|
  {
    var ms := multiset(ColorsOf(deck));
    forall x | x in ms ensures ms[x] == 2 {
      var i :| 0 <= i < |deck| && ColorsOf(deck)[i] == x;
    }
    DoubledSize(ms);
    assert Support(ms) == DeckColors(deck) by {
      forall x | x in ms ensures x in DeckColors(deck) {
        var i :| 0 <= i < |deck| && ColorsOf(deck)[i] == x;
      }
      forall i | 0 <= i < |deck| ensures deck[i].color in ms {
        assert ColorsOf(deck)[i] == deck[i].color;
      }
    }
  }
}
