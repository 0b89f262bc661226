/** A playing card of the Durak game (DurakOnline/card.py): a suit string
    (one of H, D, S, T in practice) and an integer value (6 or 2 up to 14,
    the ace).  Its text form is the suit followed by the decimal value, and
    StrCast reads that form back. */
module Cards {
  import opened Wrappers
  import opened Decimal

  datatype Card = Card(suit: string, value: int)

  function GetSuit(c: Card): string {
    c.suit
  }

  function GetValue(c: Card): int {
    c.value
  }

  function SetValue(c: Card, value: int): (r: Card)
    ensures r.suit == c.suit && r.value == value
  {
    c.(value := value)
  }

  function SetSuit(c: Card, suit: string): (r: Card)
    ensures r.value == c.value && r.suit == suit
  {
    c.(suit := suit)
  }

  /** __lt__: only cards of the same suit are ordered, by value. */
  predicate Less(c1: Card, c2: Card) {
    if c1.suit == c2.suit then c1.value < c2.value else false
  }

  /** Less is a strict partial order, and cards of different suits are
      never ordered. */
  lemma LessIsStrictOrder(c1: Card, c2: Card, c3: Card)
    ensures !Less(c1, c1)
    ensures Less(c1, c2) ==> !Less(c2, c1)
    ensures Less(c1, c2) && Less(c2, c3) ==> Less(c1, c3)
    ensures c1.suit != c2.suit ==> !Less(c1, c2) && !Less(c2, c1)
  {
  }

  /** Python's `int(s)` on an optional sign followed by one or more
      digits; anything else raises ValueError, which is None here. */
  function ParseInt(s: string): (r: Option<int>)
    ensures r.Some? && |s| > 0 && s[0] == '-' ==> r.value <= 0
  {
    if |s| > 0 && (s[0] == '-' || s[0] == '+') then
      var digits := s[1..];
      if |digits| > 0 && AllDigits(digits) then
        Some(if s[0] == '-' then 0 - DigitsValue(digits) as int else DigitsValue(digits))
      else None
    else if |s| > 0 && AllDigits(s) then Some(DigitsValue(s))
    else None
  }

  /** int(str(v)) == v for every integer. */
  lemma IntRoundTrip(v: int)
    ensures ParseInt(IntToDecimal(v)) == Some(v)
  {
    if v < 0 {
      DecimalRoundTrip(-v);
      assert IntToDecimal(v)[1..] == NatToDecimal(-v);
    } else {
      DecimalRoundTrip(v);
    }
  }

  /** Python's `str` of an int. */
  function IntToDecimal(v: int): string {
    if v < 0 then "-" + NatToDecimal(-v) else NatToDecimal(v)
  }

  /** __str__, and also toJSON and __repr__: suit then decimal value. */
  function ToString(c: Card): string {
    c.suit + IntToDecimal(c.value)
  }

  /** StrCast: the first character becomes the suit and int() of the rest
      the value.  An empty string raises IndexError and a rest that is not
      an integer raises ValueError; both are None here. */
  function StrCast(s: string): (r: Option<Card>)
    ensures |s| == 0 ==> r.None?
    ensures r.Some? ==> r.value.suit == [s[0]] && ParseInt(s[1..]) == Some(r.value.value)
  {
    if |s| == 0 then None
    else
      match ParseInt(s[1..])
      case None => None
      case Some(v) => Some(Card([s[0]], v))
  }

  /** A card with a one-letter suit survives printing and reading back. */
  lemma StrCastInvertsToString(c: Card)
    requires |c.suit| == 1
    ensures StrCast(ToString(c)) == Some(c)
  {
    var s := ToString(c);
    assert s[1..] == IntToDecimal(c.value);
    IntRoundTrip(c.value);
    assert [s[0]] == c.suit;
  }
}
