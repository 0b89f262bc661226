/** Facts about Euclidean division that the solver does not find on its
    own. */
module Arith {
  lemma MulAtLeast(k: int, c: int)
    requires k >= 1 && c > 0
    ensures k * c >= c
  {
  }

  /** Euclidean division is unique: x == q·c + r with 0 <= r < c fixes
      the remainder and the quotient. */
  lemma DivModUnique(x: int, c: int, q: int, r: int)
    requires c > 0 && 0 <= r < c && x == q * c + r
    ensures x % c == r && x / c == q
  {
    var q', r' := x / c, x % c;
    assert (q - q') * c == r' - r;
    if q - q' >= 1 {
      MulAtLeast(q - q', c);
    } else if q' - q >= 1 {
      MulAtLeast(q' - q, c);
    }
  }
}
