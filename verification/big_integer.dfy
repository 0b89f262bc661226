/** Arbitrary-precision signed integers (big_integer/): a vector of limbs
    in base 10^9, least significant first, a count `size` of the limbs
    that are in use, and a sign flag.  Zero has size 0 whatever its sign. */
module BigInts {
  import opened Wrappers
  import opened Arith

  /** kSystcomp: the limb base. */
  const Base: int := 1_000_000_000
  /** kCellsize: decimal digits per limb. */
  const CellSize: nat := 9

  const Int64Min: int := -0x8000_0000_0000_0000
  const Int64Max: int := 0x7FFF_FFFF_FFFF_FFFF

  datatype BigInt = BigInt(limbs: seq<int>, size: int, negative: bool)

  // ---------------------------------------------------------------------
  // Limb sequences and their value
  // ---------------------------------------------------------------------

  function Pow(k: nat): (p: int)
    ensures p >= 1
  {
    if k == 0 then 1 else Base * Pow(k - 1)
  }

  /** The number a limb sequence denotes, least significant limb first. */
  function Mag(v: seq<int>): int {
    if |v| == 0 then 0 else v[0] + Base * Mag(v[1..])
  }

  /** k zero limbs, as pushed by the padding loops. */
  function Zeros(k: nat): (z: seq<int>)
    ensures |z| == k && forall i :: 0 <= i < k ==> z[i] == 0
  {
    seq(k, _ => 0)
  }

  predicate Limb(x: int) {
    0 <= x < Base
  }

  predicate Limbs(v: seq<int>) {
    forall i :: 0 <= i < |v| ==> Limb(v[i])
  }

  /** Limbs with no zero at the top: the one representation of a number. */
  predicate Normal(v: seq<int>) {
    Limbs(v) && (|v| > 0 ==> v[|v| - 1] != 0)
  }

  predicate Sized(b: BigInt) {
    0 <= b.size <= |b.limbs|
  }

  /** What every constructor and operator leaves behind: the limbs in use
      are normalised, the spare limbs of the vector are zero. */
  predicate Good(b: BigInt) {
    && Sized(b)
    && Normal(b.limbs[..b.size])
    && forall i :: b.size <= i < |b.limbs| ==> b.limbs[i] == 0
  }

  function Digits(b: BigInt): seq<int>
    requires Sized(b)
  {
    b.limbs[..b.size]
  }

  function Value(b: BigInt): int
    requires Sized(b)
  {
    if b.negative then -Mag(Digits(b)) else Mag(Digits(b))
  }

  // ---------------------------------------------------------------------
  // Facts about Mag
  // ---------------------------------------------------------------------

  lemma ScaleSum(x: int, p: int, m: int)
    ensures Base * (x + p * m) == Base * x + (Base * p) * m
  {
  }

  /** Splitting a limb sequence at n: the low part plus the high part
      shifted by n limbs. */
  lemma {:induction false} MagSplit(v: seq<int>, n: nat)
    requires n <= |v|
    ensures Mag(v) == Mag(v[..n]) + Pow(n) * Mag(v[n..])
  {
    if n == 0 {
      assert v[..0] == [] && v[0..] == v;
    } else {
      var t := v[1..];
      MagSplit(t, n - 1);
      assert t[..n - 1] == v[..n][1..];
      assert t[n - 1..] == v[n..];
      ScaleSum(Mag(t[..n - 1]), Pow(n - 1), Mag(v[n..]));
    }
  }

  lemma {:induction false} MagZeros(v: seq<int>)
    requires forall i :: 0 <= i < |v| ==> v[i] == 0
    ensures Mag(v) == 0
  {
    if |v| > 0 {
      MagZeros(v[1..]);
    }
  }

  /** Zero limbs above the top change nothing. */
  lemma MagOfLimbs(b: BigInt)
    requires Good(b)
    ensures Mag(b.limbs) == Mag(Digits(b))
  {
    MagSplit(b.limbs, b.size);
    MagZeros(b.limbs[b.size..]);
  }

  lemma ScaleBound(m: int, p: int)
    requires 0 <= m <= p - 1
    ensures Base * m <= Base * p - Base
  {
  }

  /** k limbs denote a number below Base^k. */
  lemma {:induction false} MagBound(v: seq<int>)
    requires Limbs(v)
    ensures 0 <= Mag(v) < Pow(|v|)
  {
    if |v| > 0 {
      MagBound(v[1..]);
      ScaleBound(Mag(v[1..]), Pow(|v| - 1));
    }
  }

  lemma PowMonotone(a: nat, b: nat)
    requires a <= b
    ensures Pow(a) <= Pow(b)
    decreases b
  {
    if a < b {
      PowMonotone(a, b - 1);
    }
  }

  lemma PowAdd(a: nat, b: nat)
    ensures Pow(a + b) == Pow(a) * Pow(b)
    decreases a
  {
    if a > 0 {
      PowAdd(a - 1, b);
      assert Pow(a + b) == Base * (Pow(a - 1) * Pow(b));
    }
  }

  lemma MulMonotone(p: int, x: int, y: int)
    requires p >= 0 && x <= y
    ensures p * x <= p * y
  {
  }

  /** A normalised sequence of k > 0 limbs is at least Base^(k-1). */
  lemma MagAtLeastTop(v: seq<int>)
    requires Normal(v) && |v| > 0
    ensures Mag(v) >= Pow(|v| - 1)
  {
    var n := |v| - 1;
    MagSplit(v, n);
    MagBound(v[..n]);
    assert Mag(v[n..]) == v[n];
    MulMonotone(Pow(n), 1, v[n]);
  }

  /** Writing x at position i moves the number by (x - v[i])·Base^i. */
  lemma {:induction false} MagUpdate(v: seq<int>, i: nat, x: int)
    requires i < |v|
    ensures Mag(v[i := x]) == Mag(v) + (x - v[i]) * Pow(i)
  {
    if i > 0 {
      var t := v[1..];
      MagUpdate(t, i - 1, x);
      assert v[i := x][1..] == t[i - 1 := x];
      ScaleSum(Mag(t), x - v[i], Pow(i - 1));
    }
  }

  lemma {:induction false} MagAppendZeros(v: seq<int>, k: nat)
    ensures Mag(v + Zeros(k)) == Mag(v)
  {
    var w := v + Zeros(k);
    MagSplit(w, |v|);
    assert w[..|v|] == v;
    MagZeros(w[|v|..]);
  }

  /** One normalised sequence per number. */
  lemma {:induction false} MagInjective(v: seq<int>, w: seq<int>)
    requires Normal(v) && Normal(w) && Mag(v) == Mag(w)
    ensures v == w
  {
    if |v| == 0 || |w| == 0 {
      if |v| > 0 {
        MagAtLeastTop(v);
      }
      if |w| > 0 {
        MagAtLeastTop(w);
      }
    } else {
      MagBound(v[1..]);
      MagBound(w[1..]);
      DivModUnique(Mag(v), Base, Mag(v[1..]), v[0]);
      DivModUnique(Mag(w), Base, Mag(w[1..]), w[0]);
      assert |v[1..]| > 0 ==> v[1..][|v[1..]| - 1] == v[|v| - 1];
      assert |w[1..]| > 0 ==> w[1..][|w[1..]| - 1] == w[|w| - 1];
      MagInjective(v[1..], w[1..]);
      assert v == [v[0]] + v[1..] && w == [w[0]] + w[1..];
    }
  }

  /** Equal limbs above k and a smaller limb at k: a smaller number. */
  lemma MagLessAt(v: seq<int>, w: seq<int>, k: nat)
    requires Limbs(v) && Limbs(w) && |v| == |w| && k < |v|
    requires v[k] < w[k] && v[k + 1..] == w[k + 1..]
    ensures Mag(v) < Mag(w)
  {
    MagSplit(v, k);
    MagSplit(w, k);
    MagBound(v[..k]);
    MagBound(w[..k]);
    assert Mag(v[k..]) == v[k] + Base * Mag(v[k + 1..]);
    assert Mag(w[k..]) == w[k] + Base * Mag(w[k + 1..]);
    var t := Base * Mag(v[k + 1..]);
    MulMonotone(Pow(k), v[k] + t + 1, w[k] + t);
    assert Pow(k) * (v[k] + t + 1) == Pow(k) * (v[k] + t) + Pow(k);
  }

  /** The highest position below n where u and w differ, scanning from the
      top as the comparison loops do. */
  function FirstDiffFromTop(u: seq<int>, w: seq<int>, n: nat): (r: Option<nat>)
    requires n <= |u| && n <= |w|
    ensures r.None? ==> u[..n] == w[..n]
    ensures r.Some? ==> r.value < n && u[r.value] != w[r.value]
                        && u[r.value + 1..n] == w[r.value + 1..n]
  {
    if n == 0 then None
    else if u[n - 1] != w[n - 1] then Some(n - 1)
    else
      var r := FirstDiffFromTop(u, w, n - 1);
      assert u[..n] == u[..n - 1] + [u[n - 1]] && w[..n] == w[..n - 1] + [w[n - 1]];
      if r.Some? then
        assert u[r.value + 1..n] == u[r.value + 1..n - 1] + [u[n - 1]];
        assert w[r.value + 1..n] == w[r.value + 1..n - 1] + [w[n - 1]];
        r
      else r
  }

  /** Comparing two normalised sequences: the longer is larger; at equal
      length the highest differing limb decides. */
  lemma DigitsCompare(v: seq<int>, w: seq<int>)
    requires Normal(v) && Normal(w)
    ensures |v| < |w| ==> Mag(v) < Mag(w)
    ensures |v| == |w| && v != w ==>
              var k := FirstDiffFromTop(v, w, |v|).value;
              Mag(v) < Mag(w) <==> v[k] < w[k]
  {
    if |v| < |w| {
      MagBound(v);
      MagAtLeastTop(w);
      PowMonotone(|v|, |w| - 1);
    }
    if |v| == |w| && v != w {
      assert v[..|v|] == v && w[..|w|] == w;
      var k := FirstDiffFromTop(v, w, |v|).value;
      assert v[k + 1..] == v[k + 1..|v|] && w[k + 1..] == w[k + 1..|w|];
      if v[k] < w[k] {
        MagLessAt(v, w, k);
      } else {
        MagLessAt(w, v, k);
      }
    }
  }

  lemma MagPositive(b: BigInt)
    requires Good(b)
    ensures b.size == 0 <==> Mag(Digits(b)) == 0
    ensures Mag(Digits(b)) >= 0
  {
    MagBound(Digits(b));
    if b.size > 0 {
      MagAtLeastTop(Digits(b));
    }
  }

  // ---------------------------------------------------------------------
  // Construction from a 64-bit integer
  // ---------------------------------------------------------------------

  /** The base-10^9 limbs of m, at least one, as the constructor's loop
      writes them. */
  function LimbsOf(m: nat): (v: seq<int>)
    ensures |v| >= 1 && Limbs(v) && Mag(v) == m
    ensures m > 0 ==> Normal(v)
    ensures m == 0 ==> v == [0]
    decreases m
  {
    if m / Base > 0 then
      var v := [m % Base] + LimbsOf(m / Base);
      assert v[1..] == LimbsOf(m / Base);
      v
    else [m % Base]
  }

  /** BigInt(int64_t): the magnitude |n| (also for INT64_MIN, which the
      constructor special-cases) in limbs, size 0 exactly for zero. */
  function FromInt64(n: int): (r: BigInt)
    requires Int64Min <= n <= Int64Max
    ensures Good(r) && Value(r) == n
    ensures r.size == 0 <==> n == 0
    ensures r.negative <==> n < 0
  {
    var m := if n < 0 then -n else n;
    var v := LimbsOf(m);
    var r := BigInt(v, if m == 0 then 0 else |v|, n < 0);
    assert Digits(r) == if m == 0 then [] else v;
    r
  }

  // ---------------------------------------------------------------------
  // Sign operations
  // ---------------------------------------------------------------------

  /** Abs: the same limbs with the sign cleared. */
  function Abs(b: BigInt): (r: BigInt)
    ensures r.limbs == b.limbs && r.size == b.size && !r.negative
  {
    b.(negative := false)
  }

  /** Unary minus: the same limbs with the sign flipped. */
  function Neg(b: BigInt): (r: BigInt)
    ensures r.limbs == b.limbs && r.size == b.size && r.negative != b.negative
  {
    b.(negative := !b.negative)
  }

  lemma AbsNegValue(b: BigInt)
    requires Good(b)
    ensures Good(Abs(b)) && Good(Neg(b))
    ensures Value(Abs(b)) == if Value(b) < 0 then -Value(b) else Value(b)
    ensures Value(Neg(b)) == -Value(b)
  {
    MagPositive(b);
  }

  // ---------------------------------------------------------------------
  // Comparison
  // ---------------------------------------------------------------------

  /** operator==: both zero, or the same size, sign and limbs in use. */
  function Equal(a: BigInt, b: BigInt): (r: bool)
    requires Sized(a) && Sized(b)
    ensures r ==> Value(a) == Value(b)
  {
    if a.size == 0 && b.size == 0 then true
    else if a.size != b.size then false
    else if a.negative != b.negative then false
    else Digits(a) == Digits(b)
  }

  lemma EqualIffSameValue(a: BigInt, b: BigInt)
    requires Good(a) && Good(b)
    ensures Equal(a, b) <==> Value(a) == Value(b)
  {
    MagPositive(a);
    MagPositive(b);
    if Value(a) == Value(b) && (a.size > 0 || b.size > 0) {
      MagInjective(Digits(a), Digits(b));
    }
  }

  /** Zerobool: operator< when at least one side has size 0. */
  function Zerobool(a: BigInt, b: BigInt): (r: bool)
    ensures r ==> a.size != b.size
  {
    if a.size == 0 && b.size == 0 then false
    else if a.size == 0 && b.negative && b.size != 0 then false
    else if a.size == 0 && !b.negative && b.size != 0 then true
    else if b.size == 0 && a.negative && a.size != 0 then true
    else if b.size == 0 && !a.negative && a.size != 0 then false
    else false
  }

  /** operator< as written: between two negatives of different sizes it
      answers as if they were positive. */
  function LessAsWritten(a: BigInt, b: BigInt): (r: bool)
    requires Sized(a) && Sized(b)
    ensures r ==> !Equal(a, b)
  {
    if a.size == 0 || b.size == 0 then Zerobool(a, b)
    else if Equal(a, b) then false
    else if a.negative != b.negative then a.negative
    else if a.size < b.size then true
    else if a.size > b.size then false
    else if !a.negative then
      match FirstDiffFromTop(a.limbs, b.limbs, b.size)
      case Some(k) => a.limbs[k] < b.limbs[k]
      case None => true
    else
      match FirstDiffFromTop(a.limbs, b.limbs, a.size)
      case Some(k) => a.limbs[k] > b.limbs[k]
      case None => false
  }

  /** operator< with the size test turned round for two negatives: more
      limbs means a smaller number there. */
  function Less(a: BigInt, b: BigInt): (r: bool)
    requires Sized(a) && Sized(b)
    ensures r ==> !Equal(a, b)
  {
    if a.size == 0 || b.size == 0 then Zerobool(a, b)
    else if Equal(a, b) then false
    else if a.negative != b.negative then a.negative
    else if a.size < b.size then !a.negative
    else if a.size > b.size then a.negative
    else if !a.negative then
      match FirstDiffFromTop(a.limbs, b.limbs, b.size)
      case Some(k) => a.limbs[k] < b.limbs[k]
      case None => true
    else
      match FirstDiffFromTop(a.limbs, b.limbs, a.size)
      case Some(k) => a.limbs[k] > b.limbs[k]
      case None => false
  }

  lemma MagnitudeOrder(a: BigInt, b: BigInt)
    requires Good(a) && Good(b) && a.size > 0 && b.size > 0 && !Equal(a, b)
    requires a.negative == b.negative
    ensures a.size < b.size ==> Mag(Digits(a)) < Mag(Digits(b))
    ensures a.size == b.size ==>
              var k := FirstDiffFromTop(a.limbs, b.limbs, a.size).value;
              a.limbs[k] != b.limbs[k] &&
              (Mag(Digits(a)) < Mag(Digits(b)) <==> a.limbs[k] < b.limbs[k])
  {
    var v, w := Digits(a), Digits(b);
    DigitsCompare(v, w);
    if a.size == b.size {
      assert v != w;
      var k := FirstDiffFromTop(v, w, |v|).value;
      assert FirstDiffFromTop(v, w, |v|) == FirstDiffFromTop(a.limbs, b.limbs, a.size) by {
        SameDiff(v, a.limbs, w, b.limbs, a.size);
      }
    }
  }

  lemma {:induction false} SameDiff(v: seq<int>, u: seq<int>, w: seq<int>, x: seq<int>, n: nat)
    requires n <= |v| <= |u| && n <= |w| <= |x| && v == u[..|v|] && w == x[..|w|]
    ensures FirstDiffFromTop(v, w, n) == FirstDiffFromTop(u, x, n)
  {
    if n > 0 {
      SameDiff(v, u, w, x, n - 1);
    }
  }

  /** The corrected operator< is the order of the numbers. */
  lemma LessIffValue(a: BigInt, b: BigInt)
    requires Good(a) && Good(b)
    ensures Less(a, b) <==> Value(a) < Value(b)
  {
    MagPositive(a);
    MagPositive(b);
    EqualIffSameValue(a, b);
    if a.size > 0 && b.size > 0 && !Equal(a, b) && a.negative == b.negative {
      MagnitudeOrder(a, b);
      if a.size > b.size {
        MagnitudeOrder(b, a);
        assert !Equal(b, a);
      }
    }
  }

  /** The source's operator< agrees with the corrected one except between
      two negatives of different sizes, where it answers the reverse. */
  lemma LessAsWrittenReversesNegatives(a: BigInt, b: BigInt)
    requires Good(a) && Good(b)
    ensures !(a.negative && b.negative && a.size > 0 && b.size > 0 && a.size != b.size) ==>
              (LessAsWritten(a, b) <==> Value(a) < Value(b))
    ensures a.negative && b.negative && a.size > 0 && b.size > 0 && a.size != b.size ==>
              (LessAsWritten(a, b) <==> Value(b) < Value(a))
  {
    LessIffValue(a, b);
    MagPositive(a);
    MagPositive(b);
    if a.size > 0 && b.size > 0 && a.negative == b.negative && a.size != b.size {
      if a.size < b.size {
        MagnitudeOrder(a, b);
      } else {
        MagnitudeOrder(b, a);
        assert !Equal(b, a);
      }
    }
  }

  /** -1 < -1000000000 holds for the source's operator<. */
  lemma LessAsWrittenMinusOne()
    ensures var a, b := FromInt64(-1), FromInt64(-1_000_000_000);
            LessAsWritten(a, b) && Value(b) < Value(a) && !Less(a, b)
  {
    var a, b := FromInt64(-1), FromInt64(-1_000_000_000);
    assert a.size == 1 && b.size == 2;
    LessIffValue(a, b);
  }

  // The source derives >, <= and >= from its operator< (lines 189-197).
  // The AsWritten members below are those operators over LessAsWritten;
  // Greater, LessEq and GreaterEq are the same definitions over the
  // corrected Less, with >= as its name promises.

  /** operator> as written: neither operator< (as written) nor equal. */
  function GreaterAsWritten(a: BigInt, b: BigInt): (r: bool)
    requires Sized(a) && Sized(b)
    ensures r ==> !Equal(a, b) && !LessAsWritten(a, b)
  {
    !(LessAsWritten(a, b) || Equal(a, b))
  }

  /** operator<= as written: not operator> (as written). */
  function LessEqAsWritten(a: BigInt, b: BigInt): (r: bool)
    requires Sized(a) && Sized(b)
    ensures Equal(a, b) ==> r
  {
    !GreaterAsWritten(a, b)
  }

  /** operator>= as written: neither operator> (as written) nor equal. */
  function GreaterEqAsWritten(a: BigInt, b: BigInt): (r: bool)
    requires Sized(a) && Sized(b)
    ensures r ==> !Equal(a, b)
  {
    !(GreaterAsWritten(a, b) || Equal(a, b))
  }

  /** The corrected operator>: neither less nor equal. */
  function Greater(a: BigInt, b: BigInt): (r: bool)
    requires Sized(a) && Sized(b)
    ensures r ==> !Equal(a, b) && !Less(a, b)
  {
    !(Less(a, b) || Equal(a, b))
  }

  /** The corrected operator<=: not greater. */
  function LessEq(a: BigInt, b: BigInt): (r: bool)
    requires Sized(a) && Sized(b)
    ensures Equal(a, b) ==> r
  {
    !Greater(a, b)
  }

  /** operator>= as its name promises: not less. */
  function GreaterEq(a: BigInt, b: BigInt): (r: bool)
    requires Sized(a) && Sized(b)
    ensures Equal(a, b) ==> r
  {
    !Less(a, b)
  }

  /** operator!=. */
  function NotEqual(a: BigInt, b: BigInt): (r: bool)
    requires Sized(a) && Sized(b)
    ensures !r ==> Value(a) == Value(b)
  {
    !Equal(a, b)
  }

  /** The corrected comparisons are the order of the numbers. */
  lemma OrderIffValue(a: BigInt, b: BigInt)
    requires Good(a) && Good(b)
    ensures Greater(a, b) <==> Value(a) > Value(b)
    ensures LessEq(a, b) <==> Value(a) <= Value(b)
    ensures GreaterEq(a, b) <==> Value(a) >= Value(b)
    ensures NotEqual(a, b) <==> Value(a) != Value(b)
  {
    LessIffValue(a, b);
    EqualIffSameValue(a, b);
  }

  /** Two negatives with different limb counts: the pairs on which the
      source's operator< answers the reverse. */
  predicate Reversed(a: BigInt, b: BigInt) {
    a.negative && b.negative && a.size > 0 && b.size > 0 && a.size != b.size
  }

  /** The source's operator> is its operator< with the operands swapped,
      and so the order of the numbers except on Reversed pairs, where it
      is the reverse order; operator<= likewise. */
  lemma AsWrittenOrder(a: BigInt, b: BigInt)
    requires Good(a) && Good(b)
    ensures GreaterAsWritten(a, b) <==> LessAsWritten(b, a)
    ensures LessEqAsWritten(a, b) <==> !LessAsWritten(b, a)
    ensures !Reversed(a, b) ==> (GreaterAsWritten(a, b) <==> Value(a) > Value(b))
    ensures !Reversed(a, b) ==> (LessEqAsWritten(a, b) <==> Value(a) <= Value(b))
    ensures Reversed(a, b) ==> (GreaterAsWritten(a, b) <==> Value(a) < Value(b))
    ensures Reversed(a, b) ==> (LessEqAsWritten(a, b) <==> Value(a) >= Value(b))
  {
    LessAsWrittenReversesNegatives(a, b);
    LessAsWrittenReversesNegatives(b, a);
    EqualIffSameValue(a, b);
  }

  /** The source's operator>= is its operator< itself: strict, so x >= x
      and 2 >= 1 are false, while -1 >= -1000000000 is true. */
  lemma GreaterEqAsWrittenIsLess(a: BigInt, b: BigInt)
    requires Good(a) && Good(b)
    ensures GreaterEqAsWritten(a, b) <==> LessAsWritten(a, b)
    ensures !Reversed(a, b) ==> (GreaterEqAsWritten(a, b) <==> Value(a) < Value(b))
    ensures Reversed(a, b) ==> (GreaterEqAsWritten(a, b) <==> Value(a) > Value(b))
    ensures !GreaterEqAsWritten(a, a)
  {
    LessAsWrittenReversesNegatives(a, b);
    EqualIffSameValue(a, b);
    EqualIffSameValue(a, a);
  }

  /** The operators as written on small numbers: 2 >= 1 is false, and
      between -1 and -1000000000 every answer is the reverse of the
      numbers' order. */
  lemma AsWrittenExamples()
    ensures !GreaterEqAsWritten(FromInt64(2), FromInt64(1))
    ensures var a, b := FromInt64(-1), FromInt64(-1_000_000_000);
            && Value(a) > Value(b)
            && !GreaterAsWritten(a, b) && LessEqAsWritten(a, b) && GreaterEqAsWritten(a, b)
            && Greater(a, b) && !LessEq(a, b) && GreaterEq(a, b)
  {
    var two, one := FromInt64(2), FromInt64(1);
    GreaterEqAsWrittenIsLess(two, one);
    var a, b := FromInt64(-1), FromInt64(-1_000_000_000);
    assert a.size == 1 && b.size == 2;
    AsWrittenOrder(a, b);
    GreaterEqAsWrittenIsLess(a, b);
    OrderIffValue(a, b);
  }
}
