/** A Durak player (DurakOnline/player.py): a hand of cards, a name and a
    passed flag.  A hand is refilled from the top of the deck up to six
    cards. */
module Players {
  import opened Wrappers
  import opened Cards
  import opened Decks
  import PyLists

  const HandSize: nat := 6

  datatype Player = Player(cards: seq<Card>, name: string, passed: bool)

  function NewPlayer(cards: seq<Card>, name: string): (p: Player)
    ensures p.cards == cards && p.name == name && !p.passed
  {
    Player(cards, name, false)
  }

  /** GrabCards: a hand of fewer than six cards draws the missing number
      from the top of the deck; a full hand draws nothing.  Returns the
      player and the deck. */
  function GrabCards(p: Player, d: Deck): (r: (Player, Deck))
    ensures r.0.name == p.name && r.0.passed == p.passed
    ensures r.0.cards + r.1.cards == p.cards + d.cards
    ensures |p.cards| >= HandSize ==> r == (p, d)
    ensures |p.cards| < HandSize ==>
              |r.0.cards| == if |p.cards| + |d.cards| < HandSize then |p.cards| + |d.cards| else HandSize
  {
    if |p.cards| < HandSize then
      var drawn := GrabCardsTop(d, HandSize - |p.cards|);
      (p.(cards := p.cards + drawn.0), drawn.1)
    else (p, d)
  }

  /** Cards move from the deck to the hand; none is lost or made up. */
  lemma GrabCardsKeepsCards(p: Player, d: Deck)
    ensures var r := GrabCards(p, d);
            multiset(r.0.cards) + multiset(r.1.cards) == multiset(p.cards) + multiset(d.cards)
  {
    var r := GrabCards(p, d);
    assert multiset(r.0.cards + r.1.cards) == multiset(p.cards + d.cards);
  }

  function GiveHand(p: Player): seq<Card> {
    p.cards
  }

  /** PutCard(i): take out and return the card at Python index i (negative
      counts from the end); IndexError when there is no such card. */
  function PutCard(p: Player, index: int): (r: Option<(Card, Player)>)
    ensures r.Some? <==> -(|p.cards| as int) <= index < |p.cards|
    ensures r.Some? ==>
              var k := PyLists.Index(index, |p.cards|).value;
              && r.value.0 == p.cards[k]
              && r.value.1 == p.(cards := p.cards[..k] + p.cards[k + 1..])
  {
    match PyLists.Index(index, |p.cards|)
    case None => None
    case Some(k) => Some((p.cards[k], p.(cards := PyLists.RemoveAt(p.cards, k))))
  }

  /** Putting a card back where PutCard took it from restores the hand. */
  lemma PutCardThenReinsert(p: Player, index: int)
    requires 0 <= index < |p.cards|
    ensures var r := PutCard(p, index).value;
            r.1.cards[..index] + [r.0] + r.1.cards[index..] == p.cards
  {
    var r := PutCard(p, index).value;
    assert r.1.cards[..index] == p.cards[..index];
    assert r.1.cards[index..] == p.cards[index + 1..];
    assert p.cards[..index] + [p.cards[index]] + p.cards[index + 1..] == p.cards;
  }

  predicate HaveCard(p: Player) {
    p.cards != []
  }

  /** Grab(l): take every card of l into the hand. */
  function Grab(p: Player, l: seq<Card>): (r: Player)
    ensures |r.cards| == |p.cards| + |l|
    ensures r.cards[..|p.cards|] == p.cards && r.cards[|p.cards|..] == l
    ensures HaveCard(r) <==> HaveCard(p) || l != []
  {
    p.(cards := p.cards + l)
  }
}
