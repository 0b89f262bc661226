/** The table of one Durak round (board.py): the attack cards played so
    far, the defence cards that answered them, and the trump suit. */
module Boards {
  import opened Wrappers
  import opened Cards
  import opened Decks

  /** At most this many attack cards per round. */
  const AttackLimit: nat := 7

  datatype Board = Board(attack: seq<Card>, defence: seq<Card>, trumpSuit: string)

  function NewBoard(trumpSuit: string): (b: Board)
    ensures b.attack == [] && b.defence == [] && b.trumpSuit == trumpSuit
  {
    Board([], [], trumpSuit)
  }

  /** Some card in `cards` has this value. */
  predicate ValueAmong(value: int, cards: seq<Card>) {
    exists i :: 0 <= i < |cards| && cards[i].value == value
  }

  /** CanAttack: under the limit, and the round is empty or the value
      already appears among the defence cards or on the first attack
      card. */
  predicate CanAttack(b: Board, c: Card) {
    |b.attack| < AttackLimit &&
    (ValueAmong(c.value, b.defence) || b.attack == [] || c.value == b.attack[0].value)
  }

  /** AttackCard as written: its condition lacks the first-attack-card
      clause of CanAttack. */
  function AttackCardAsWritten(b: Board, c: Card): (r: Board)
    ensures r.defence == b.defence && r.trumpSuit == b.trumpSuit
    ensures r.attack == b.attack || r.attack == b.attack + [c]
    ensures r.attack == b.attack + [c] ==> CanAttack(b, c)
  {
    if |b.attack| < AttackLimit && (ValueAmong(c.value, b.defence) || b.attack == []) then
      b.(attack := b.attack + [c])
    else b
  }

  /** A second attack card of the first card's value is refused by
      AttackCard although CanAttack accepts it. */
  lemma AttackCardAsWrittenRefusesMatchingValue()
    ensures var b := Board([Card("H", 6)], [], "S");
            && CanAttack(b, Card("D", 6))
            && AttackCardAsWritten(b, Card("D", 6)) == b
  {
    var b := Board([Card("H", 6)], [], "S");
    assert !ValueAmong(6, b.defence);
  }

  /** AttackCard as evidently intended: play the card exactly when
      CanAttack allows it; otherwise the board is unchanged. */
  function AttackCard(b: Board, c: Card): (r: Board)
    ensures CanAttack(b, c) ==> r == b.(attack := b.attack + [c])
    ensures !CanAttack(b, c) ==> r == b
  {
    if CanAttack(b, c) then b.(attack := b.attack + [c]) else b
  }

  /** Attacking never takes the round past the limit. */
  lemma AttackKeepsLimit(b: Board, c: Card)
    requires |b.attack| <= AttackLimit
    ensures |AttackCard(b, c).attack| <= AttackLimit
    ensures |AttackCardAsWritten(b, c).attack| <= AttackLimit
  {
  }

  /** CanDefence: the card beats the last attack card; IndexError when no
      attack card is on the table. */
  function CanDefence(b: Board, c: Card): (r: Option<bool>)
    ensures r.Some? <==> |b.attack| > 0
    ensures r.Some? ==> (r.value <==> Beats(b.attack[|b.attack| - 1], c, b.trumpSuit))
  {
    if |b.attack| == 0 then None else Some(Beats(b.attack[|b.attack| - 1], c, b.trumpSuit))
  }

  /** DefenceCard: play the card on the defence side exactly when it beats
      the last attack card. */
  function DefenceCard(b: Board, c: Card): (r: Option<Board>)
    ensures r.Some? <==> |b.attack| > 0
    ensures r.Some? && CanDefence(b, c) == Some(true) ==> r.value == b.(defence := b.defence + [c])
    ensures r.Some? && CanDefence(b, c) == Some(false) ==> r.value == b
  {
    if |b.attack| == 0 then None
    else if Beats(b.attack[|b.attack| - 1], c, b.trumpSuit) then Some(b.(defence := b.defence + [c]))
    else Some(b)
  }

  /** ResetBoard clears both sides and keeps the trump suit. */
  function ResetBoard(b: Board): (r: Board)
    ensures r == NewBoard(b.trumpSuit)
  {
    b.(attack := [], defence := [])
  }

  /** Beated: every attack card has been answered. */
  predicate Beated(b: Board) {
    |b.attack| == |b.defence|
  }

  /** A successful defence answers the last open attack card: when one
      attack card was unanswered, the board becomes beaten. */
  lemma DefenceClosesAttack(b: Board, c: Card)
    requires |b.attack| == |b.defence| + 1
    requires CanDefence(b, c) == Some(true)
    ensures DefenceCard(b, c).Some? && Beated(DefenceCard(b, c).value)
  {
  }
}
