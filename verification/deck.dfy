/** The draw pile of the Durak game (deck.py), and the rule deciding which
    card beats which under a trump suit.  The pile's first element is its
    top; its last card is shown face up and names the trump suit. */
module Decks {
  import opened Wrappers
  import opened Cards
  import PyLists

  /** The four suits in the order the deck is built. */
  const Suits: seq<string> := ["H", "D", "S", "T"]

  /** CompareCardWithTrump(c1, c2, trump): card c2 beats card c1. */
  predicate Beats(c1: Card, c2: Card, trump: string) {
    if c1.suit == c2.suit then Less(c1, c2)
    else if c1.suit == trump then false
    else if c2.suit == trump then true
    else Less(c1, c2)
  }

  /** The case table: same suit compares values; a trump is beaten only by
      a higher trump; a trump beats any other suit; otherwise nothing
      beats. */
  lemma BeatsCases(c1: Card, c2: Card, trump: string)
    ensures c1.suit == c2.suit ==> (Beats(c1, c2, trump) <==> c1.value < c2.value)
    ensures c1.suit != c2.suit && c1.suit == trump ==> !Beats(c1, c2, trump)
    ensures c1.suit != c2.suit && c1.suit != trump && c2.suit == trump ==> Beats(c1, c2, trump)
    ensures c1.suit != c2.suit && c1.suit != trump && c2.suit != trump ==> !Beats(c1, c2, trump)
  {
  }

  /** Beating is a strict order for every trump suit: never reflexive,
      never both ways, and transitive. */
  lemma BeatsIsStrictOrder(c1: Card, c2: Card, c3: Card, trump: string)
    ensures !Beats(c1, c1, trump)
    ensures Beats(c1, c2, trump) ==> !Beats(c2, c1, trump)
    ensures Beats(c1, c2, trump) && Beats(c2, c3, trump) ==> Beats(c1, c3, trump)
  {
  }

  /** The unshuffled deck: for each value from base_card up to 14, one card
      of each suit. */
  function OrderedDeck(baseCard: int): (r: seq<Card>)
    ensures |r| == 4 * (if baseCard < 15 then 15 - baseCard else 0)
    ensures forall i :: 0 <= i < |r| ==> r[i] == Card(Suits[i % 4], baseCard + i / 4)
  {
    var n := if baseCard < 15 then 15 - baseCard else 0;
    seq(4 * n, i requires 0 <= i < 4 * n => Card(Suits[i % 4], baseCard + i / 4))
  }

  predicate ValidCard(c: Card, baseCard: int) {
    c.suit in Suits && baseCard <= c.value < 15
  }

  /** Which slot of the ordered deck holds a card. */
  function SlotOf(c: Card, baseCard: int): (i: nat)
    requires ValidCard(c, baseCard)
    ensures i < |OrderedDeck(baseCard)| && OrderedDeck(baseCard)[i] == c
  {
    var s := if c.suit == "H" then 0 else if c.suit == "D" then 1 else if c.suit == "S" then 2 else 3;
    4 * (c.value - baseCard) + s
  }

  /** The ordered deck holds exactly the valid cards, each once. */
  lemma OrderedDeckContents(baseCard: int, c: Card)
    ensures c in OrderedDeck(baseCard) <==> ValidCard(c, baseCard)
    ensures multiset(OrderedDeck(baseCard))[c] == if ValidCard(c, baseCard) then 1 else 0
  {
    var d := OrderedDeck(baseCard);
    if ValidCard(c, baseCard) {
      var k := SlotOf(c, baseCard);
      forall i | 0 <= i < |d| && i != k
        ensures d[i] != c
      {
        assert i % 4 != k % 4 || i / 4 != k / 4;
      }
      OnlyOnce(d, k);
    } else {
      assert c !in d;
    }
  }

  /** An element found at exactly one position occurs once. */
  lemma {:induction false} OnlyOnce<T>(s: seq<T>, k: nat)
    requires k < |s| && forall i :: 0 <= i < |s| && i != k ==> s[i] != s[k]
    ensures multiset(s)[s[k]] == 1
  {
    assert s == s[..k] + [s[k]] + s[k + 1..];
    assert s[k] !in s[..k];
    assert s[k] !in s[k + 1..];
  }

  datatype Deck = Deck(cards: seq<Card>)

  /** Deck(base_card): the ordered deck, shuffled.  The shuffle is random in
      the original; here its outcome is the `shuffled` argument, which must
      be a rearrangement of the ordered deck. */
  function NewDeck(baseCard: int, shuffled: seq<Card>): (d: Deck)
    requires multiset(shuffled) == multiset(OrderedDeck(baseCard))
    ensures |d.cards| == 4 * (if baseCard < 15 then 15 - baseCard else 0)
    ensures forall c :: c in d.cards <==> ValidCard(c, baseCard)
    ensures forall c :: multiset(d.cards)[c] == if ValidCard(c, baseCard) then 1 else 0
  {
    var d := Deck(shuffled);
    assert |shuffled| == |multiset(shuffled)| == |OrderedDeck(baseCard)|;
    forall c
      ensures c in d.cards <==> ValidCard(c, baseCard)
      ensures multiset(d.cards)[c] == if ValidCard(c, baseCard) then 1 else 0
    {
      OrderedDeckContents(baseCard, c);
      assert c in shuffled <==> c in multiset(shuffled);
    }
    d
  }

  function Size(d: Deck): nat {
    |d.cards|
  }

  /** GrabCardsTop(n): the slice cards[:n] is handed out and cards[n:]
      stays; with Python slicing a negative n counts from the bottom. */
  function GrabCardsTop(d: Deck, n: int): (r: (seq<Card>, Deck))
    ensures r.0 + r.1.cards == d.cards
    ensures 0 <= n ==> |r.0| == if n <= |d.cards| then n else |d.cards|
  {
    var parts := PyLists.Split(d.cards, n);
    (parts.0, Deck(parts.1))
  }

  /** GrabOneCard: a list of at most one card (not a card). */
  function GrabOneCard(d: Deck): (r: (seq<Card>, Deck))
    ensures |r.0| <= 1 && r.0 + r.1.cards == d.cards
    ensures |d.cards| > 0 ==> r.0 == [d.cards[0]]
  {
    GrabCardsTop(d, 1)
  }

  /** LastCard: the bottom card; IndexError on an empty deck. */
  function LastCard(d: Deck): (r: Option<Card>)
    ensures r.Some? <==> |d.cards| > 0
    ensures r.Some? ==> r.value == d.cards[|d.cards| - 1]
  {
    if |d.cards| == 0 then None else Some(d.cards[|d.cards| - 1])
  }

  /** TrumpSuit: the suit of the bottom card. */
  function TrumpSuit(d: Deck): (r: Option<string>)
    ensures r.Some? <==> |d.cards| > 0
    ensures r.Some? ==> r.value == d.cards[|d.cards| - 1].suit
  {
    match LastCard(d)
    case None => None
    case Some(c) => Some(c.suit)
  }
}
