/** The arithmetic operators of BigInt (big_integer/big_integer.cpp):
    addition by carrying limb to limb, subtraction by borrowing, schoolbook
    multiplication, and division by searching for the quotient. */
module BigIntArith {
  import opened Arith
  import opened BigInts

  // ---------------------------------------------------------------------
  // Moving value between neighbouring limbs
  // ---------------------------------------------------------------------

  lemma ShiftPair(p: int, x: int, y: int)
    ensures p * (x + Base * y) == x * p + y * (Base * p)
  {
  }

  /** Rewriting limbs i and i+1 together moves the number by the change at
      i plus Base times the change at i+1, both scaled by Base^i. */
  lemma MagMove(v: seq<int>, i: nat, x: int, y: int)
    requires i + 1 < |v|
    ensures Mag(v[i := x][i + 1 := y]) == Mag(v) + Pow(i) * ((x - v[i]) + Base * (y - v[i + 1]))
  {
    MagUpdate(v, i, x);
    MagUpdate(v[i := x], i + 1, y);
    assert Pow(i + 1) == Base * Pow(i);
    ShiftPair(Pow(i), x - v[i], y - v[i + 1]);
  }

  /** A carry from limb i into limb i+1 keeps the number. */
  lemma CarryKeeps(v: seq<int>, i: nat)
    requires i + 1 < |v| && v[i] >= 0
    ensures Mag(v[i := v[i] % Base][i + 1 := v[i + 1] + v[i] / Base]) == Mag(v)
  {
    MagMove(v, i, v[i] % Base, v[i + 1] + v[i] / Base);
    DivModUnique(v[i], Base, v[i] / Base, v[i] % Base);
  }

  /** Mag of a prefix one limb longer. */
  lemma MagPrefixStep(v: seq<int>, i: nat)
    requires i < |v|
    ensures Mag(v[..i + 1]) == Mag(v[..i]) + Pow(i) * v[i]
  {
    MagSplit(v[..i + 1], i);
    assert v[..i + 1][..i] == v[..i];
    assert v[..i + 1][i..] == [v[i]];
  }

  /** Mag of the suffix from i: its first limb plus the rest shifted. */
  lemma MagSuffixStep(v: seq<int>, i: nat)
    requires i < |v|
    ensures Mag(v[i..]) == v[i] + Base * Mag(v[i + 1..])
  {
    assert v[i..][1..] == v[i + 1..];
  }

  lemma {:induction false} MagZeroLimbs(v: seq<int>)
    requires Limbs(v) && Mag(v) == 0
    ensures forall k :: 0 <= k < |v| ==> v[k] == 0
  {
    if |v| > 0 {
      MagBound(v[1..]);
      MagZeroLimbs(v[1..]);
      assert forall k :: 1 <= k < |v| ==> v[k] == v[1..][k - 1];
    }
  }

  /** Limbs zero from n upwards leave Mag to the first n. */
  lemma MagZeroAbove(v: seq<int>, n: nat)
    requires n <= |v| && forall k :: n <= k < |v| ==> v[k] == 0
    ensures Mag(v) == Mag(v[..n])
  {
    MagSplit(v, n);
    MagZeros(v[n..]);
  }

  /** A sequence of limbs whose number is below Base^n has only zeros from
      n upwards. */
  lemma ZerosAboveBound(v: seq<int>, n: nat)
    requires Limbs(v) && n <= |v| && Mag(v) < Pow(n)
    ensures forall k :: n <= k < |v| ==> v[k] == 0
  {
    MagSplit(v, n);
    MagBound(v[..n]);
    MagBound(v[n..]);
    if Mag(v[n..]) != 0 {
      MulMonotone(Pow(n), 1, Mag(v[n..]));
    }
    MagZeroLimbs(v[n..]);
    assert forall k :: n <= k < |v| ==> v[k] == v[n..][k - n];
  }

  /** Limbs whose number reaches Base^(k-1) have a non-zero limb k-1. */
  lemma TopNonZero(v: seq<int>)
    requires Limbs(v) && |v| > 0 && Mag(v) >= Pow(|v| - 1)
    ensures v[|v| - 1] != 0
  {
    var n := |v| - 1;
    MagSplit(v, n);
    MagBound(v[..n]);
    assert Mag(v[n..]) == v[n];
  }

  /** Dropping zero limbs from the top, as the trimming loops of MinusPart,
      Multiply and operator%= do. */
  method TrimZeros(v: seq<int>, n: int) returns (size: int)
    requires 0 <= n <= |v|
    ensures 0 <= size <= n
    ensures forall k :: size <= k < n ==> v[k] == 0
    ensures size > 0 ==> v[size - 1] != 0
  {
    size := n;
    var i := n - 1;
    while i >= 0
      invariant -1 <= i < size && size == i + 1
      invariant forall k :: size <= k < n ==> v[k] == 0
    {
      if v[i] == 0 {
        size := size - 1;
      } else {
        break;
      }
      i := i - 1;
    }
  }

  // ---------------------------------------------------------------------
  // Addition and subtraction
  // ---------------------------------------------------------------------

  /** One step of the carry loop: limb i becomes (v_i + w_i) mod Base and
      the quotient is carried into limb i+1; the number grows by
      w_i·Base^i. */
  lemma CarryStep(v: seq<int>, w: seq<int>, i: nat)
    requires i + 1 < |v| && i < |w| && v[i] + w[i] >= 0
    ensures var s := v[i] + w[i];
            Mag(v[i := s % Base][i + 1 := v[i + 1] + s / Base]) + Pow(i + 1) * Mag(w[i + 1..])
            == Mag(v) + Pow(i) * Mag(w[i..])
  {
    var s := v[i] + w[i];
    MagMove(v, i, s % Base, v[i + 1] + s / Base);
    DivModUnique(s, Base, s / Base, s % Base);
    MagSuffixStep(w, i);
    assert Pow(i + 1) == Base * Pow(i);
    ShiftPair(Pow(i), w[i], Mag(w[i + 1..]));
  }

  /** The carry loop of operator+= over the first n limbs. */
  method CarryLoop(T: seq<int>, w: seq<int>, n: nat) returns (v: seq<int>)
    requires Limbs(T) && Limbs(w) && n < |T| && n < |w|
    requires forall j :: n <= j < |w| ==> w[j] == 0
    ensures |v| == |T|
    ensures forall j :: 0 <= j < n ==> Limb(v[j])
    ensures 0 <= v[n] - T[n] <= 1
    ensures forall j :: n < j < |v| ==> v[j] == T[j]
    ensures Mag(v) == Mag(T) + Mag(w)
  {
    v := T;
    assert w[0..] == w;
    var i := 0;
    while i < n
      invariant 0 <= i <= n
      invariant |v| == |T|
      invariant forall j :: 0 <= j < i ==> Limb(v[j])
      invariant 0 <= v[i] - T[i] <= 1
      invariant forall j :: i < j < |v| ==> v[j] == T[j]
      invariant Mag(v) + Pow(i) * Mag(w[i..]) == Mag(T) + Mag(w)
    {
      var s := v[i] + w[i];
      CarryStep(v, w, i);
      DivModUnique(s, Base, s / Base, s % Base);
      SmallCarry(s);
      v := v[i := s % Base][i + 1 := v[i + 1] + s / Base];
      i := i + 1;
    }
    var tail := w[n..];
    assert forall j :: 0 <= j < |tail| ==> tail[j] == 0;
    MagZeros(tail);
    MulZero(Pow(n), Mag(tail));
  }

  lemma MulZero(p: int, z: int)
    requires z == 0
    ensures p * z == 0
  {
  }

  /** The same-sign branch of operator+=: t is the operand with more limbs
      in use; c is padded with zeros and added limb by limb with a carry;
      a carry out of the top adds a limb, otherwise the spare limb pushed
      for it is popped again. */
  method AddSameSign(t: BigInt, c: BigInt) returns (r: BigInt)
    requires Good(t) && Good(c) && t.size >= c.size
    ensures Good(r) && r.negative == t.negative
    ensures Mag(Digits(r)) == Mag(Digits(t)) + Mag(Digits(c))
  {
    var T := t.limbs + [0];
    var w := c.limbs + Zeros(t.size - c.size + 1);
    assert T == t.limbs + Zeros(1);
    Padded(t, 1, T);
    Padded(c, t.size - c.size + 1, w);
    var v := CarryLoop(T, w, t.size);
    AddSameSignResult(t, c, T, w, v);
    var size := if v[t.size] == 0 then t.size else t.size + 1;
    var limbs := if v[t.size] == 0 then v[..|v| - 1] else v;
    r := BigInt(limbs, size, t.negative);
    assert Digits(r) == v[..size];
  }

  /** Padding the vector with zero limbs keeps the number and leaves only
      zeros above the limbs in use. */
  lemma Padded(b: BigInt, k: nat, p: seq<int>)
    requires Good(b) && p == b.limbs + Zeros(k)
    ensures Limbs(p) && Mag(p) == Mag(Digits(b))
    ensures forall j :: b.size <= j < |p| ==> p[j] == 0
  {
    MagAppendZeros(b.limbs, k);
    MagOfLimbs(b);
  }

  /** What the carry loop leaves: limbs below Base, a carry of 0 or 1 at
      t.size and zeros above it. */
  lemma AddShape(t: BigInt, T: seq<int>, v: seq<int>)
    requires Good(t) && T == t.limbs + Zeros(1) && |v| == |T|
    requires forall j :: 0 <= j < t.size ==> Limb(v[j])
    requires 0 <= v[t.size] - T[t.size] <= 1
    requires forall j :: t.size < j < |v| ==> v[j] == T[j]
    ensures var size := if v[t.size] == 0 then t.size else t.size + 1;
            && Limbs(v[..size])
            && (size == t.size + 1 ==> v[t.size] == 1)
            && forall j :: size <= j < |v| ==> v[j] == 0
  {
  }

  lemma AddSameSignResult(t: BigInt, c: BigInt, T: seq<int>, w: seq<int>, v: seq<int>)
    requires Good(t) && Good(c) && t.size >= c.size
    requires T == t.limbs + Zeros(1) && w == c.limbs + Zeros(t.size - c.size + 1)
    requires |v| == |T|
    requires forall j :: 0 <= j < t.size ==> Limb(v[j])
    requires 0 <= v[t.size] - T[t.size] <= 1
    requires forall j :: t.size < j < |v| ==> v[j] == T[j]
    requires Mag(v) == Mag(T) + Mag(w)
    ensures var size := if v[t.size] == 0 then t.size else t.size + 1;
            Normal(v[..size]) && Mag(v[..size]) == Mag(Digits(t)) + Mag(Digits(c))
            && forall j :: size <= j < |v| ==> v[j] == 0
  {
    Padded(t, 1, T);
    Padded(c, t.size - c.size + 1, w);
    var size := if v[t.size] == 0 then t.size else t.size + 1;
    AddShape(t, T, v);
    MagZeroAbove(v, size);
    SumTopNonZero(t, c, v[..size]);
  }

  /** A sum at least as large as t, in as many limbs as t uses or one
      more whose top is the carry, has a non-zero top limb. */
  lemma SumTopNonZero(t: BigInt, c: BigInt, u: seq<int>)
    requires Good(t) && Good(c)
    requires |u| == t.size || (|u| == t.size + 1 && u[t.size] == 1)
    requires Limbs(u)
    requires Mag(u) == Mag(Digits(t)) + Mag(Digits(c))
    ensures Normal(u)
  {
    if |u| == t.size && |u| > 0 {
      MagPositive(t);
      MagBound(Digits(c));
      MagAtLeastTop(Digits(t));
      TopNonZero(u);
    }
  }

  /** The borrow loop of MinusPart over the first n limbs: where limb i
      of v is below w_i, one is borrowed from limb i+1. */
  method BorrowLoop(L: seq<int>, w: seq<int>, n: nat) returns (v: seq<int>)
    requires Limbs(L) && Limbs(w) && n < |L| && n <= |w|
    ensures |v| == |L|
    ensures forall j :: 0 <= j < n ==> Limb(v[j])
    ensures -1 <= v[n] - L[n] <= 0
    ensures forall j :: n < j < |v| ==> v[j] == L[j]
    ensures Mag(v) == Mag(L) - Mag(w[..n])
  {
    v := L;
    var i := 0;
    while i < n
      invariant 0 <= i <= n
      invariant |v| == |L|
      invariant forall j :: 0 <= j < i ==> Limb(v[j])
      invariant -1 <= v[i] - L[i] <= 0
      invariant forall j :: i < j < |v| ==> v[j] == L[j]
      invariant Mag(v) == Mag(L) - Mag(w[..i])
    {
      MagPrefixStep(w, i);
      BorrowStep(v, w, i);
      if v[i] < w[i] {
        v := v[i := v[i] + Base - w[i]][i + 1 := v[i + 1] - 1];
      } else {
        v := v[i := v[i] - w[i]];
      }
      i := i + 1;
    }
  }

  /** One step of the borrow loop takes w_i·Base^i off the number. */
  lemma BorrowStep(v: seq<int>, w: seq<int>, i: nat)
    requires i + 1 < |v| && i < |w|
    ensures v[i] < w[i] ==> Mag(v[i := v[i] + Base - w[i]][i + 1 := v[i + 1] - 1]) == Mag(v) - Pow(i) * w[i]
    ensures v[i] >= w[i] ==> Mag(v[i := v[i] - w[i]]) == Mag(v) - Pow(i) * w[i]
  {
    MagMove(v, i, v[i] + Base - w[i], v[i + 1] - 1);
    MagUpdate(v, i, v[i] - w[i]);
  }

  /** A borrow out of limb n would leave a negative number. */
  lemma NoTopBorrow(v: seq<int>, n: nat)
    requires n < |v| && -1 <= v[n] <= 0 && Mag(v) >= 0
    requires forall j :: 0 <= j < n ==> Limb(v[j])
    requires forall j :: n < j < |v| ==> v[j] == 0
    ensures v[n] == 0 && Mag(v[..n]) == Mag(v)
  {
    MagSplit(v, n);
    assert Limbs(v[..n]);
    MagBound(v[..n]);
    MagSuffixStep(v, n);
    MagZeros(v[n + 1..]);
    if v[n] != 0 {
      assert Mag(v[n..]) == -1;
    }
  }

  /** MinusPart's borrow loop leaves |left| - |copy| in the limbs in use. */
  lemma MinusResult(left: BigInt, copy: BigInt, L: seq<int>, w: seq<int>, v: seq<int>)
    requires Good(left) && Good(copy) && copy.size <= left.size
    requires Mag(Digits(copy)) <= Mag(Digits(left))
    requires L == left.limbs + Zeros(1) && w == copy.limbs + Zeros(left.size - copy.size)
    requires |v| == |L|
    requires forall j :: 0 <= j < left.size ==> Limb(v[j])
    requires -1 <= v[left.size] - L[left.size] <= 0
    requires forall j :: left.size < j < |v| ==> v[j] == L[j]
    requires Mag(v) == Mag(L) - Mag(w[..left.size])
    ensures Limbs(v[..left.size]) && forall j :: left.size <= j < |v| ==> v[j] == 0
    ensures Mag(v[..left.size]) == Mag(Digits(left)) - Mag(Digits(copy))
  {
    var n := left.size;
    assert Mag(L) == Mag(Digits(left)) && forall j :: n <= j < |L| ==> L[j] == 0 by {
      Padded(left, 1, L);
    }
    assert Mag(w[..n]) == Mag(Digits(copy)) by {
      Padded(copy, n - copy.size, w);
      var wl := w[..n];
      assert wl[..copy.size] == Digits(copy);
      assert forall j :: copy.size <= j < |wl| ==> wl[j] == 0;
      MagZeroAbove(wl, copy.size);
    }
    NoTopBorrow(v, n);
  }

  /** Which operand MinusPart subtracts from which: Abs(left) < Abs(copy)
      compares the magnitudes, and the larger magnitude has at least as
      many limbs. */
  lemma MinusOrder(left: BigInt, copy: BigInt)
    requires Good(left) && Good(copy)
    ensures Less(Abs(left), Abs(copy)) <==> Mag(Digits(left)) < Mag(Digits(copy))
    ensures !Less(Abs(left), Abs(copy)) ==> copy.size <= left.size
  {
    AbsNegValue(left);
    AbsNegValue(copy);
    LessIffValue(Abs(left), Abs(copy));
    MagPositive(left);
    MagPositive(copy);
    if left.size < copy.size {
      DigitsCompare(Digits(left), Digits(copy));
    }
  }

  /** MinusPart: subtracts the operand with the smaller magnitude from the
      larger by borrowing, then drops the zero limbs at the top; the result
      takes the sign of the larger.  No borrow leaves the top limb in use,
      so the write the loop could make at index size never happens. */
  method MinusPart(left0: BigInt, copy0: BigInt) returns (r: BigInt)
    requires Good(left0) && Good(copy0)
    ensures Good(r)
    ensures var x, y := Mag(Digits(left0)), Mag(Digits(copy0));
            Mag(Digits(r)) == (if x < y then y - x else x - y)
            && r.negative == (if x < y then copy0.negative else left0.negative)
  {
    var left, copy := left0, copy0;
    MinusOrder(left0, copy0);
    MinusOrder(copy0, left0);
    if Less(Abs(left), Abs(copy)) {
      left, copy := copy, left;
    }
    r := SubtractSmaller(left, copy);
  }

  /** MinusPart once the operands are in order: borrow `copy` out of
      `left`, whose magnitude is at least as large, and trim. */
  method SubtractSmaller(left: BigInt, copy: BigInt) returns (r: BigInt)
    requires Good(left) && Good(copy) && copy.size <= left.size
    requires Mag(Digits(copy)) <= Mag(Digits(left))
    ensures Good(r) && r.negative == left.negative
    ensures Mag(Digits(r)) == Mag(Digits(left)) - Mag(Digits(copy))
  {
    var w := copy.limbs + Zeros(left.size - copy.size);
    var L := left.limbs + Zeros(1);
    assert Limbs(L) && Limbs(w) by {
      Padded(left, 1, L);
      Padded(copy, left.size - copy.size, w);
    }
    var v := BorrowLoop(L, w, left.size);
    MinusResult(left, copy, L, w, v);
    var u := v[..|left.limbs|];
    assert u[..left.size] == v[..left.size];
    assert forall k :: left.size <= k < |u| ==> u[k] == 0;
    var size := TrimZeros(u, left.size);
    r := BigInt(u, size, left.negative);
    MinusTrimmed(r, left.size);
  }

  /** Trimming the zero limbs at the top leaves a well-formed BigInt with
      the same number. */
  lemma MinusTrimmed(r: BigInt, n: nat)
    requires 0 <= r.size <= n <= |r.limbs| && Limbs(r.limbs[..n])
    requires forall k :: r.size <= k < |r.limbs| ==> r.limbs[k] == 0
    requires r.size > 0 ==> r.limbs[r.size - 1] != 0
    ensures Good(r) && Mag(Digits(r)) == Mag(r.limbs[..n])
  {
    var un := r.limbs[..n];
    assert un[..r.size] == Digits(r);
    MagZeroAbove(un, r.size);
  }

  /** operator+=: the same-sign branch when the signs agree, MinusPart
      otherwise. */
  method AddAssign(a: BigInt, b: BigInt) returns (r: BigInt)
    requires Good(a) && Good(b)
    ensures Good(r) && Value(r) == Value(a) + Value(b)
  {
    MagPositive(a);
    MagPositive(b);
    if a.negative == b.negative {
      if a.size < b.size {
        r := AddSameSign(b, a);
      } else {
        r := AddSameSign(a, b);
      }
    } else {
      r := MinusPart(a, b);
    }
  }

  /** operator-=: adds the negation. */
  method SubAssign(a: BigInt, b: BigInt) returns (r: BigInt)
    requires Good(a) && Good(b)
    ensures Good(r) && Value(r) == Value(a) - Value(b)
  {
    AbsNegValue(b);
    r := AddAssign(a, Neg(b));
  }

  /** operator++: adds the BigInt built from 1. */
  method Increment(a: BigInt) returns (r: BigInt)
    requires Good(a)
    ensures Good(r) && Value(r) == Value(a) + 1
  {
    r := AddAssign(a, FromInt64(1));
  }

  /** operator--: subtracts the BigInt built from 1. */
  method Decrement(a: BigInt) returns (r: BigInt)
    requires Good(a)
    ensures Good(r) && Value(r) == Value(a) - 1
  {
    r := SubAssign(a, FromInt64(1));
  }

  // ---------------------------------------------------------------------
  // Multiplication
  // ---------------------------------------------------------------------

  lemma LimbProduct(x: int, y: int)
    requires Limb(x) && Limb(y)
    ensures 0 <= x * y < Base * Base && Limb((x * y) % Base) && Limb((x * y) / Base)
  {
    MulMonotone(x, y, Base - 1);
    MulMonotone(Base - 1, x, Base - 1);
    var z := x * y;
    assert 0 <= z <= (Base - 1) * (Base - 1);
    var q := z / Base;
    assert z == Base * q + z % Base;
    if q >= Base {
      MulMonotone(Base, Base, q);
    }
  }

  lemma MulStrict(x: int, y: int, p: int, q: int)
    requires 0 <= x < p && 0 <= y < q
    ensures x * y < p * q
  {
    MulMonotone(x, y, q);
    MulMonotone(q, x, p);
    if x < p {
      assert x * q < p * q by {
        MulMonotone(q, x + 1, p);
      }
    }
  }

  lemma RowStep(m0: int, p: int, a: int, mj: int, pj: int, b: int, pij: int)
    requires pij == p * pj
    ensures m0 + p * (a * mj) + pij * (a * b) == m0 + p * (a * (mj + pj * b))
  {
    assert p * (a * (pj * b)) == (p * pj) * (a * b);
  }

  lemma RowDone(mi: int, p: int, a: int, mb: int)
    ensures mi * mb + p * (a * mb) == (mi + p * a) * mb
  {
  }

  /** The carry out of a limb below 3·Base is at most 2. */
  lemma SmallCarry(z: int)
    requires 0 <= z < 3 * Base
    ensures 0 <= z / Base <= 2 && Limb(z % Base)
  {
    if z < Base {
      DivModUnique(z, Base, 0, z);
    } else if z < 2 * Base {
      DivModUnique(z, Base, 1, z - Base);
    } else {
      DivModUnique(z, Base, 2, z - 2 * Base);
    }
  }

  /** One step (i, j) of the schoolbook loop of operator*=: adds the two
      halves of x = a_i·b_j at limbs p = i + j and p+1, then carries out of
      p and out of p+1. */
  method MulStep(m: seq<int>, p: nat, x: int) returns (m': seq<int>)
    requires p + 2 < |m| && 0 <= x < Base * Base
    requires Limb(m[p]) && 0 <= m[p + 1] < Base + 3 && Limb(m[p + 2])
    ensures |m'| == |m| && Mag(m') == Mag(m) + Pow(p) * x
    ensures Limb(m'[p]) && Limb(m'[p + 1]) && 0 <= m'[p + 2] < Base + 3
    ensures m[p + 2] == 0 ==> m'[p + 2] < Base
    ensures forall k :: 0 <= k < |m| && k != p && k != p + 1 && k != p + 2 ==> m'[k] == m[k]
  {
    var lo, hi := x % Base, x / Base;
    DivModUnique(x, Base, hi, lo);
    assert Limb(hi) by {
      if hi >= Base {
        MulMonotone(Base, Base, hi);
      }
    }
    MagMove(m, p, m[p] + lo, m[p + 1] + hi);
    m' := m[p := m[p] + lo][p + 1 := m[p + 1] + hi];
    if m'[p] >= Base {
      SmallCarry(m'[p]);
      CarryKeeps(m', p);
      m' := m'[p := m'[p] % Base][p + 1 := m'[p + 1] + m'[p] / Base];
    }
    if m'[p + 1] >= Base {
      SmallCarry(m'[p + 1]);
      CarryKeeps(m', p + 1);
      m' := m'[p + 1 := m'[p + 1] % Base][p + 2 := m'[p + 2] + m'[p + 1] / Base];
    }
  }

  /** Row i of the schoolbook loop of operator*=: adds a_i·B shifted by
      i limbs, keeping every limb below Base. */
  method MulRow(m: seq<int>, i: nat, ai: int, B: seq<int>) returns (m': seq<int>)
    requires Limb(ai) && Limbs(B) && Limbs(m) && i + |B| + 1 < |m|
    requires forall k :: i + |B| < k < |m| ==> m[k] == 0
    ensures |m'| == |m| && Limbs(m')
    ensures forall k :: i + |B| + 1 < k < |m| ==> m'[k] == 0
    ensures Mag(m') == Mag(m) + Pow(i) * (ai * Mag(B))
  {
    var sb := |B|;
    m' := m;
    var j := 0;
    assert B[..0] == [];
    while j < sb
      invariant 0 <= j <= sb
      invariant |m'| == |m|
      invariant forall k :: 0 <= k < |m| && k != i + j + 1 ==> Limb(m'[k])
      invariant 0 <= m'[i + j + 1] < Base + 3
      invariant j == sb ==> m'[i + j + 1] < Base
      invariant forall k :: i + sb + 1 < k < |m| ==> m'[k] == 0
      invariant j < sb ==> m'[i + sb + 1] == 0
      invariant Mag(m') == Mag(m) + Pow(i) * (ai * Mag(B[..j]))
    {
      var p := i + j;
      LimbProduct(ai, B[j]);
      var before := m';
      m' := MulStep(m', p, ai * B[j]);
      MagPrefixStep(B, j);
      PowAdd(i, j);
      RowStep(Mag(m), Pow(i), ai, Mag(B[..j]), Pow(j), B[j], Pow(p));
      j := j + 1;
    }
    assert B[..sb] == B;
  }

  /** A product of k and n limbs fits in k + n limbs. */
  lemma ProductFits(A: seq<int>, B: seq<int>, m: seq<int>)
    requires Limbs(A) && Limbs(B) && Limbs(m) && |A| + |B| <= |m|
    requires Mag(m) == Mag(A) * Mag(B)
    ensures forall k :: |A| + |B| <= k < |m| ==> m[k] == 0
  {
    MagBound(A);
    MagBound(B);
    MulStrict(Mag(A), Mag(B), Pow(|A|), Pow(|B|));
    PowAdd(|A|, |B|);
    ZerosAboveBound(m, |A| + |B|);
  }

  /** operator*= and Multiply: the product of the magnitudes by schoolbook
      multiplication into size_a + size_b + 2 fresh zero limbs (after the
      one limb of `BigInt multiply = 0`), the zero limbs at the top
      dropped, negative exactly when the signs differ. */
  method MulAssign(a: BigInt, b: BigInt) returns (r: BigInt)
    requires Good(a) && Good(b)
    ensures Good(r) && Value(r) == Value(a) * Value(b)
    ensures r.negative == (a.negative != b.negative)
  {
    var sa, sb := a.size, b.size;
    var A, B := Digits(a), Digits(b);
    assert Limbs(A) && Limbs(B);
    var m := [0] + Zeros(sa + sb + 2);
    MagZeros(m);
    assert A[..0] == [];
    var i := 0;
    while i < sa
      invariant 0 <= i <= sa
      invariant |m| == sa + sb + 3
      invariant Limbs(m)
      invariant forall k :: i + sb < k < |m| ==> m[k] == 0
      invariant Mag(m) == Mag(A[..i]) * Mag(B)
    {
      m := MulRow(m, i, A[i], B);
      MagPrefixStep(A, i);
      RowDone(Mag(A[..i]), Pow(i), A[i], Mag(B));
      i := i + 1;
    }
    assert A[..sa] == A;
    ProductFits(A, B, m);
    var size := TrimZeros(m, sa + sb);
    r := BigInt(m, size, a.negative != b.negative);
    MagZeroAbove(m, size);
    assert Digits(r) == m[..size];
    SignedProduct(Mag(A), Mag(B), a.negative, b.negative);
  }

  lemma SignedProduct(x: int, y: int, nx: bool, ny: bool)
    ensures (if nx != ny then -(x * y) else x * y) == (if nx then -x else x) * (if ny then -y else y)
  {
  }

  // ---------------------------------------------------------------------
  // Division and remainder
  // ---------------------------------------------------------------------

  function AbsInt(x: int): nat {
    if x < 0 then -x else x
  }

  /** C++'s quotient: rounded toward zero. */
  function TruncDiv(x: int, y: int): int
    requires y != 0
  {
    var q := AbsInt(x) / AbsInt(y);
    if (x < 0) != (y < 0) then -q else q
  }

  /** The quotient search of operator/= on the magnitudes x = |*this| and
      y = |big|: doubling `right` until y·right exceeds x, bisecting
      [left, right) while y·(left+1) < x, and Check's final step up when
      y·(left+1) == x. */
  method QuotientSearch(x: nat, y: nat) returns (q: nat)
    requires y > 0 && x >= y
    ensures y * q <= x < y * (q + 1)
  {
    var right: nat, left: nat := 1, 1;
    while y * right <= x
      invariant 1 <= left <= right && y * left <= x
      invariant left < right || y * right <= x
      decreases x - y * right
    {
      left := right;
      assert y * (right * 2) == 2 * (y * right);
      right := right * 2;
    }
    while y * (left + 1) < x
      invariant 1 <= left < right && y * left <= x < y * right
      decreases right - left
    {
      var middle := (left + right) / 2;
      if left + 1 == right {
        assert false;
      }
      if y * middle <= x {
        left := middle;
      } else {
        right := middle;
      }
    }
    if y * (left + 1) <= x {
      left := left + 1;
      MulMonotone(y, left + 1, right);
    } else {
      assert x < y * (left + 1);
    }
    q := left;
  }

  /** The BigInt of sign and magnitude m, as Check leaves it. */
  function FromMagnitude(m: nat, negative: bool): (r: BigInt)
    ensures Good(r) && Mag(Digits(r)) == m && r.negative == negative
  {
    var v := LimbsOf(m);
    var r := BigInt(v, if m == 0 then 0 else |v|, negative);
    assert Digits(r) == if m == 0 then [] else v;
    r
  }

  /** operator/=: zero when |a| < |b|; otherwise the searched quotient,
      negative when the signs differ. */
  method DivAssign(a: BigInt, b: BigInt) returns (r: BigInt)
    requires Good(a) && Good(b) && Value(b) != 0
    ensures Good(r) && Value(r) == TruncDiv(Value(a), Value(b))
    ensures AbsInt(Value(b)) * AbsInt(Value(r)) <= AbsInt(Value(a))
              < AbsInt(Value(b)) * (AbsInt(Value(r)) + 1)
  {
    TruncDivBounds(Value(a), Value(b));
    MagPositive(a);
    MagPositive(b);
    AbsNegValue(a);
    AbsNegValue(b);
    LessIffValue(Abs(a), Abs(b));
    var x, y := Mag(Digits(a)), Mag(Digits(b));
    if Less(Abs(a), Abs(b)) {
      r := FromInt64(0);
      DivModUnique(x, y, 0, x);
    } else {
      var q := QuotientSearch(x, y);
      DivModUnique(x, y, q, x - y * q);
      r := FromMagnitude(q, a.negative != b.negative);
    }
  }

  lemma DivBounds(x: nat, y: nat)
    requires y > 0
    ensures y * (x / y) <= x < y * (x / y + 1)
  {
    var q := x / y;
    assert x == y * q + x % y;
    assert y * (q + 1) == y * q + y;
  }

  /** The quotient is the largest multiple of the divisor that fits:
      |b|·|q| <= |a| < |b|·(|q| + 1). */
  lemma TruncDivBounds(x: int, y: int)
    requires y != 0
    ensures AbsInt(y) * AbsInt(TruncDiv(x, y)) <= AbsInt(x) < AbsInt(y) * (AbsInt(TruncDiv(x, y)) + 1)
  {
    var ax, ay := AbsInt(x), AbsInt(y);
    var q: int := ax / ay;
    DivBounds(ax, ay);
    assert AbsInt(TruncDiv(x, y)) == q by {
      if (x < 0) != (y < 0) {
        assert TruncDiv(x, y) == -q;
      } else {
        assert TruncDiv(x, y) == q;
      }
    }
  }

  /** operator%=: a - (a / b)·b, then the zero limbs at the top dropped. */
  method ModAssign(a: BigInt, b: BigInt) returns (r: BigInt)
    requires Good(a) && Good(b) && Value(b) != 0
    ensures Good(r)
    ensures Value(r) == Value(a) - TruncDiv(Value(a), Value(b)) * Value(b)
    ensures AbsInt(Value(r)) < AbsInt(Value(b))
    ensures Value(r) == 0 || (Value(r) < 0 <==> Value(a) < 0)
  {
    RemainderBounds(Value(a), Value(b));
    var q := DivAssign(a, b);
    var p := MulAssign(q, b);
    r := SubAssign(a, p);
    var size := TrimZeros(r.limbs, r.size);
    r := r.(size := size);
  }

  /** The remainder of operator%= is smaller than the divisor and has the
      sign of the dividend. */
  lemma RemainderBounds(x: int, y: int)
    requires y != 0
    ensures var rem := x - TruncDiv(x, y) * y;
            AbsInt(rem) < AbsInt(y) && (rem == 0 || (rem < 0 <==> x < 0))
  {
    RemainderOf(x, y);
  }

  /** a - (a / b)·b is |a| mod |b| with the sign of a. */
  lemma RemainderOf(x: int, y: int)
    requires y != 0
    ensures x - TruncDiv(x, y) * y == (if x < 0 then -(AbsInt(x) % AbsInt(y)) else AbsInt(x) % AbsInt(y))
  {
    var ax, ay := AbsInt(x), AbsInt(y);
    var q: int := ax / ay;
    var r := ax % ay;
    assert ax == ay * q + r;
    if y > 0 {
      assert q * y == ay * q;
    } else {
      assert q * y == -(ay * q);
    }
    if (x < 0) != (y < 0) {
      assert TruncDiv(x, y) == -q;
      assert TruncDiv(x, y) * y == -(q * y);
    } else {
      assert TruncDiv(x, y) == q;
    }
  }
}
