/** The text form of BigInt (big_integer/big_integer.cpp): operator<<
    prints the top limb as is and every lower limb padded to nine digits;
    the string constructor cuts the digits into nine-digit limbs from the
    right. */
module BigIntText {
  import opened Wrappers
  import opened Decimal
  import opened BigInts
  import opened BigIntArith

  /** The largest value std::stoi returns; beyond it, it throws. */
  const IntMax: int := 0x7FFF_FFFF

  // ---------------------------------------------------------------------
  // Numerals
  // ---------------------------------------------------------------------

  /** 1 when the text starts with a minus sign. */
  function Minus(s: string): nat {
    if |s| > 0 && s[0] == '-' then 1 else 0
  }

  /** What the string constructor reads: an optional '-' and at least one
      decimal digit. */
  predicate IsNumeral(s: string) {
    |s| > Minus(s) && DigitsFrom(s, Minus(s))
  }

  /** Every character from index a on is a digit. */
  predicate DigitsFrom(s: string, a: nat) {
    forall i :: a <= i < |s| ==> IsDigit(s[i])
  }

  /** The number a numeral denotes. */
  function NumeralValue(s: string): int
    requires IsNumeral(s)
  {
    var m: int := NumeralMagnitude(s);
    if Minus(s) == 1 then -m else m
  }

  /** The number the digits of a numeral denote, sign aside. */
  function NumeralMagnitude(s: string): nat
    requires IsNumeral(s)
  {
    DigitsBetween(s, Minus(s), Minus(s), |s|);
    DigitsValue(s[Minus(s)..])
  }

  lemma DigitsBetween(s: string, a: nat, lo: nat, hi: nat)
    requires DigitsFrom(s, a) && a <= lo <= hi <= |s|
    ensures AllDigits(s[lo..hi]) && (hi == |s| ==> AllDigits(s[lo..]))
  {
    assert forall i :: 0 <= i < hi - lo ==> s[lo..hi][i] == s[lo + i];
    assert hi == |s| ==> s[lo..] == s[lo..hi];
  }

  /** std::stoi on a string of digits: its value, or nothing when it does
      not fit an int (std::out_of_range). */
  function Stoi(t: string): (r: Option<int>)
    requires AllDigits(t)
    ensures r.Some? ==> r.value == DigitsValue(t)
    ensures r.None? <==> DigitsValue(t) > IntMax
  {
    if DigitsValue(t) <= IntMax then Some(DigitsValue(t)) else None
  }

  lemma Pow10Add(a: nat, b: nat)
    ensures Pow10(a + b) == Pow10(a) * Pow10(b)
    decreases a
  {
    if a > 0 {
      Pow10Add(a - 1, b);
    }
  }

  /** Nine decimal digits per limb: 10^(9k) == Base^k. */
  lemma Pow10Limbs(k: nat)
    ensures Pow10(CellSize * k) == Pow(k)
  {
    if k > 0 {
      Pow10Limbs(k - 1);
      Pow10Add(CellSize * (k - 1), CellSize);
      assert Pow10(CellSize) == Base;
    }
  }

  // ---------------------------------------------------------------------
  // operator<<
  // ---------------------------------------------------------------------

  /** A lower limb: std::to_string padded on the left with zeros to nine
      characters. */
  function Padded9(x: int): (t: string)
    requires Limb(x)
    ensures |t| == CellSize && AllDigits(t) && DigitsValue(t) == x
  {
    var d := NatToDecimal(x);
    assert Pow10(CellSize) == Base;
    DecimalLength(x, CellSize);
    LeadingZeros(CellSize - |d|, d);
    DecimalRoundTrip(x);
    seq(CellSize - |d|, _ => '0') + d
  }

  /** Limbs k-1 down to 0, each padded to nine digits. */
  function LowerLimbs(v: seq<int>, k: nat): (t: string)
    requires k <= |v| && forall i :: 0 <= i < k ==> Limb(v[i])
    ensures |t| == CellSize * k && AllDigits(t)
  {
    if k == 0 then ""
    else
      var p, rest := Padded9(v[k - 1]), LowerLimbs(v, k - 1);
      DigitsValueAppend(p, rest);
      p + rest
  }

  /** operator<<: "0" for size 0 whatever the sign, otherwise an optional
      '-', the top limb and the padded lower limbs. */
  function Print(b: BigInt): (s: string)
    requires Good(b)
  {
    if b.size == 0 then "0"
    else (if b.negative then "-" else "") + MagnitudeText(b)
  }

  /** The digits after the sign: the top limb unpadded, then the lower
      limbs padded. */
  function MagnitudeText(b: BigInt): string
    requires Good(b) && b.size > 0
  {
    NatToDecimal(b.limbs[b.size - 1]) + LowerLimbs(b.limbs, b.size - 1)
  }

  lemma ShiftLimb(d: int, x: int, p: int, m: int)
    requires d == x * p + m
    ensures d == m + p * x
  {
  }

  lemma {:induction false} LowerLimbsValue(v: seq<int>, k: nat)
    requires k <= |v| && forall i :: 0 <= i < k ==> Limb(v[i])
    ensures DigitsValue(LowerLimbs(v, k)) == Mag(v[..k])
  {
    if k > 0 {
      var p, rest := Padded9(v[k - 1]), LowerLimbs(v, k - 1);
      assert LowerLimbs(v, k) == p + rest;
      LowerLimbsValue(v, k - 1);
      DigitsValueAppend(p, rest);
      Pow10Limbs(k - 1);
      MagPrefixStep(v, k - 1);
      ShiftLimb(DigitsValue(p + rest), v[k - 1], Pow(k - 1), Mag(v[..k - 1]));
    } else {
      assert v[..0] == [];
    }
  }

  /** The digits after the sign are worth the magnitude and start with a
      non-zero digit. */
  lemma PrintDigits(b: BigInt)
    requires Good(b) && b.size > 0
    ensures var t := MagnitudeText(b);
            |t| >= 1 && AllDigits(t) && DigitsValue(t) == Mag(Digits(b)) && t[0] != '0'
  {
    var v, n := b.limbs, b.size - 1;
    var top, low := NatToDecimal(v[n]), LowerLimbs(v, n);
    DigitsValueAppend(top, low);
    DecimalRoundTrip(v[n]);
    LowerLimbsValue(v, n);
    Pow10Limbs(n);
    MagPrefixStep(v, n);
    assert v[..n + 1] == Digits(b);
    ShiftLimb(DigitsValue(top + low), v[n], Pow(n), Mag(v[..n]));
  }

  /** The printed text is a numeral without leading zeros that denotes the
      BigInt's number; a minus sign appears exactly for negative numbers. */
  lemma PrintValue(b: BigInt)
    requires Good(b)
    ensures IsNumeral(Print(b)) && NumeralValue(Print(b)) == Value(b)
    ensures Minus(Print(b)) == 1 <==> Value(b) < 0
    ensures |Print(b)| > Minus(Print(b)) + 1 ==> Print(b)[Minus(Print(b))] != '0'
  {
    MagPositive(b);
    var s := Print(b);
    if b.size > 0 {
      PrintDigits(b);
      SignedNumeral(s, MagnitudeText(b), b.negative);
    } else {
      assert Digits(b) == [];
      DecimalRoundTrip(0);
      SignedNumeral(s, "0", false);
    }
  }

  /** A sign, or none, followed by digits. */
  lemma SignedNumeral(s: string, t: string, negative: bool)
    requires AllDigits(t) && |t| >= 1
    requires s == (if negative then "-" else "") + t
    ensures IsNumeral(s) && Minus(s) == (if negative then 1 else 0)
    ensures s[Minus(s)..] == t && NumeralMagnitude(s) == DigitsValue(t)
    ensures negative ==> NumeralValue(s) == 0 - DigitsValue(t) as int
    ensures !negative ==> NumeralValue(s) == DigitsValue(t)
  {
    if negative {
      assert s[1..] == t;
    } else {
      assert IsDigit(t[0]);
      assert s[0..] == t;
    }
  }

  // ---------------------------------------------------------------------
  // The string constructor
  // ---------------------------------------------------------------------

  /** std::stoi of the nine digits before `pointer`. */
  function Chunk(s: string, minus: nat, pointer: nat): nat
    requires minus + CellSize < pointer <= |s| && DigitsFrom(s, minus)
  {
    DigitsBetween(s, minus, pointer - CellSize, pointer);
    DigitsValue(s[pointer - CellSize..pointer])
  }

  /** The constructor's while loop: while more than nine digits remain
      left of `pointer`, push the nine digits before it as a limb and
      move `size` up to the count of limbs read when that limb is not
      zero.  Returns the limbs, size and pointer it stops at. */
  function ReadChunks(s: string, minus: nat, pointer: nat, limbs: seq<int>, size: int)
    : (r: (seq<int>, int, nat))
    requires minus < pointer <= |s| && DigitsFrom(s, minus)
    ensures minus < r.2 <= minus + CellSize && r.2 <= pointer
    decreases pointer
  {
    if pointer - CellSize - minus > 0 then
      var d := Chunk(s, minus, pointer);
      ReadChunks(s, minus, pointer - CellSize, limbs + [d], if d != 0 then |limbs| + 1 else size)
    else (limbs, size, pointer)
  }

  /** What the loop keeps: one limb per nine digits right of `pointer`,
      together worth those digits, with size the count up to the highest
      non-zero limb. */
  predicate ChunksRead(s: string, minus: nat, pointer: nat, limbs: seq<int>, size: int)
    requires minus < pointer <= |s| && DigitsFrom(s, minus)
  {
    DigitsBetween(s, minus, pointer, |s|);
    && CellSize * |limbs| == |s| - pointer
    && Limbs(limbs)
    && 0 <= size <= |limbs|
    && (size > 0 ==> limbs[size - 1] != 0)
    && (forall j :: size <= j < |limbs| ==> limbs[j] == 0)
    && Mag(limbs) == DigitsValue(s[pointer..])
  }

  /** One pass of the loop keeps ChunksRead. */
  lemma ReadChunkStep(s: string, minus: nat, pointer: nat, limbs: seq<int>, size: int)
    requires minus < pointer <= |s| && DigitsFrom(s, minus)
    requires pointer - CellSize - minus > 0
    requires ChunksRead(s, minus, pointer, limbs, size)
    ensures var d := Chunk(s, minus, pointer);
            ChunksRead(s, minus, pointer - CellSize, limbs + [d], if d != 0 then |limbs| + 1 else size)
  {
    var p := pointer - CellSize;
    DigitsBetween(s, minus, p, pointer);
    DigitsBetween(s, minus, p, |s|);
    DigitsBetween(s, minus, pointer, |s|);
    var chunk, rest := s[p..pointer], s[pointer..];
    var d := DigitsValue(chunk);
    DigitsValueBound(chunk);
    assert Pow10(CellSize) == Base;
    var limbs' := limbs + [d];
    assert s[p..] == chunk + rest;
    DigitsValueAppend(chunk, rest);
    assert |rest| == CellSize * |limbs|;
    Pow10Limbs(|limbs|);
    MagPrefixStep(limbs', |limbs|);
    assert limbs'[..|limbs|] == limbs && limbs'[..|limbs| + 1] == limbs';
    ShiftLimb(DigitsValue(s[p..]), d, Pow(|limbs|), Mag(limbs));
  }

  lemma {:induction false} ReadChunksKeeps(s: string, minus: nat, pointer: nat, limbs: seq<int>, size: int)
    requires minus < pointer <= |s| && DigitsFrom(s, minus)
    requires ChunksRead(s, minus, pointer, limbs, size)
    ensures var r := ReadChunks(s, minus, pointer, limbs, size);
            ChunksRead(s, minus, r.2, r.0, r.1)
    decreases pointer
  {
    if pointer - CellSize - minus > 0 {
      ReadChunkStep(s, minus, pointer, limbs, size);
      var d := Chunk(s, minus, pointer);
      ReadChunksKeeps(s, minus, pointer - CellSize, limbs + [d], if d != 0 then |limbs| + 1 else size);
    }
  }

  /** std::stoi of the digits left of where the loop stops: at most nine
      of them. */
  function LeadingGroup(s: string): nat
    requires IsNumeral(s)
  {
    var minus := Minus(s);
    var p := ReadChunks(s, minus, |s|, [], 0).2;
    DigitsBetween(s, minus, minus, p);
    DigitsValue(s[minus..p])
  }

  lemma SplitAt(s: string, a: nat, b: nat)
    requires a <= b <= |s|
    ensures s[a..] == s[a..b] + s[b..]
  {
  }

  /** The numeral's digits are the leading group followed by the limbs the
      loop read. */
  lemma LeadingGroupSplit(s: string)
    requires IsNumeral(s)
    ensures var c := ReadChunks(s, Minus(s), |s|, [], 0);
            && LeadingGroup(s) < Base
            && NumeralMagnitude(s) == Mag(c.0) + Pow(|c.0|) * LeadingGroup(s)
  {
    var minus := Minus(s);
    var c := ReadChunks(s, minus, |s|, [], 0);
    var p := c.2;
    DigitsBetween(s, minus, minus, p);
    DigitsBetween(s, minus, p, |s|);
    DigitsBetween(s, minus, minus, |s|);
    var head, rest := s[minus..p], s[p..];
    assert LeadingGroup(s) == DigitsValue(head);
    assert NumeralMagnitude(s) == DigitsValue(head + rest) by {
      SplitAt(s, minus, p);
    }
    assert LeadingGroup(s) < Base by {
      DigitsValueBound(head);
      assert Pow10(CellSize) == Base;
    }
    assert Mag(c.0) == DigitsValue(rest) && |rest| == CellSize * |c.0| by {
      ChunksOf(s);
    }
    DigitsValueAppend(head, rest);
    Pow10Limbs(|c.0|);
    Recombine(DigitsValue(head + rest), DigitsValue(head), Pow10(|rest|), Pow(|c.0|),
      DigitsValue(rest), Mag(c.0));
  }

  /** Putting a number back together from its leading part and the rest. */
  lemma Recombine(total: int, h: int, p10: int, pw: int, r: int, m: int)
    requires total == h * p10 + r && p10 == pw && r == m
    ensures total == m + pw * h
  {
  }

  /** The string constructor with the test on the leading digits reading
      the same pointer - minus characters it then stores. */
  function Parse(s: string): (r: BigInt)
    requires IsNumeral(s)
  {
    var minus := Minus(s);
    var c := ReadChunks(s, minus, |s|, [], 0);
    var top := LeadingGroup(s);
    if top != 0 then BigInt(c.0 + [top], |c.0| + 1, minus == 1)
    else BigInt(c.0, c.1, minus == 1)
  }

  /** The digits the test on line 49 hands std::stoi: `pointer`
      characters from index minus, clipped at the end of the text.  For a
      negative number that is one character more than the leading group. */
  function WrittenTest(s: string): (t: string)
    requires IsNumeral(s)
    ensures AllDigits(t)
  {
    var minus := Minus(s);
    var p := ReadChunks(s, minus, |s|, [], 0).2;
    var testEnd := if minus + p < |s| then minus + p else |s|;
    DigitsBetween(s, minus, minus, testEnd);
    s[minus..testEnd]
  }

  /** The string constructor as written: nothing when std::stoi throws on
      the test of line 49, otherwise the BigInt it builds, with a top limb
      pushed whenever that test reads a non-zero number. */
  function ParseAsWritten(s: string): (r: Option<BigInt>)
    requires IsNumeral(s)
  {
    var c := ReadChunks(s, Minus(s), |s|, [], 0);
    match Stoi(WrittenTest(s))
    case None => None
    case Some(test) =>
      if test != 0 then Some(BigInt(c.0 + [LeadingGroup(s)], |c.0| + 1, Minus(s) == 1))
      else Some(BigInt(c.0, c.1, Minus(s) == 1))
  }

  /** Without a sign the test reads exactly the leading group, and the
      constructor as written agrees with the corrected one. */
  lemma ParseAsWrittenNonNegative(s: string)
    requires IsNumeral(s) && Minus(s) == 0
    ensures ParseAsWritten(s) == Some(Parse(s))
  {
    LeadingGroupSplit(s);
    var p := ReadChunks(s, 0, |s|, [], 0).2;
    assert WrittenTest(s) == s[0..p];
  }

  /** The limbs Parse builds: well formed and worth the digits. */
  lemma ParseMag(s: string)
    requires IsNumeral(s)
    ensures Good(Parse(s)) && Mag(Digits(Parse(s))) == NumeralMagnitude(s)
  {
    ChunksOf(s);
    LeadingGroupSplit(s);
    var c := ReadChunks(s, Minus(s), |s|, [], 0);
    var top := LeadingGroup(s);
    var r := Parse(s);
    if top != 0 {
      var v := c.0 + [top];
      MagPrefixStep(v, |c.0|);
      assert v[..|c.0|] == c.0 && v[..|c.0| + 1] == v;
      assert Digits(r) == v;
    } else {
      MagZeroAbove(c.0, c.1);
      assert Digits(r) == c.0[..c.1];
    }
  }

  /** Parse reads a numeral into a well-formed BigInt of its number. */
  lemma ParseValue(s: string)
    requires IsNumeral(s)
    ensures Good(Parse(s)) && Value(Parse(s)) == NumeralValue(s)
  {
    ParseMag(s);
  }

  /** Printing then parsing gives back an equal BigInt. */
  lemma PrintParseRoundTrip(b: BigInt)
    requires Good(b)
    ensures IsNumeral(Print(b)) && Good(Parse(Print(b))) && Equal(Parse(Print(b)), b)
  {
    PrintValue(b);
    ParseValue(Print(b));
    EqualIffSameValue(Parse(Print(b)), b);
  }

  /** k nines are worth 10^k - 1. */
  lemma {:induction false} NinesValue(k: nat)
    ensures AllDigits(seq(k, _ => '9')) && DigitsValue(seq(k, _ => '9')) == Pow10(k) - 1
  {
    if k > 0 {
      NinesValue(k - 1);
      assert seq(k, _ => '9')[..k - 1] == seq(k - 1, _ => '9');
    }
  }

  /** Where the loop of the constructor stops and what it has read, for a
      numeral of n limbs' worth of digits after the leading group. */
  lemma ChunksOf(s: string)
    requires IsNumeral(s)
    ensures var c := ReadChunks(s, Minus(s), |s|, [], 0);
            ChunksRead(s, Minus(s), c.2, c.0, c.1)
  {
    assert s[|s|..] == [];
    assert ChunksRead(s, Minus(s), |s|, [], 0);
    ReadChunksKeeps(s, Minus(s), |s|, [], 0);
  }

  /** Two negative numerals that the constructor as written misreads. */
  const LongNegative: string := "-" + seq(18, _ => '9')    // -999999999999999999
  const PaddedNegative: string := "-0" + ("1" + seq(8, _ => '0'))   // -0100000000

  /** -999999999999999999 is a numeral the corrected constructor reads,
      but the test of line 49 hands std::stoi ten digits, 9999999999, more
      than an int holds, and std::stoi throws. */
  lemma ParseAsWrittenRejectsLongNegative()
    ensures IsNumeral(LongNegative)
    ensures ParseAsWritten(LongNegative) == None
    ensures Good(Parse(LongNegative)) && Value(Parse(LongNegative)) == -999_999_999_999_999_999
  {
    var s := LongNegative;
    assert Minus(s) == 1;
    assert NumeralMagnitude(s) == 999_999_999_999_999_999 by {
      assert s[1..] == seq(18, _ => '9');
      NinesValue(18);
      Pow10Add(CellSize, CellSize);
      assert Pow10(CellSize) == Base;
    }
    ParseValue(s);
    assert ReadChunks(s, 1, |s|, [], 0).2 == 10 by {
      ChunksOf(s);
    }
    assert WrittenTest(s) == seq(10, _ => '9');
    assert DigitsValue(WrittenTest(s)) > IntMax by {
      NinesValue(10);
      Pow10Add(CellSize, 1);
      assert Pow10(CellSize) == Base && Pow10(1) == 10;
    }
  }

  /** "-0100000000" gets a zero limb on top from the constructor as
      written, so operator== tells it apart from the BigInt of the same
      number that the corrected constructor builds. */
  lemma ParseAsWrittenKeepsZeroLimb()
    ensures IsNumeral(PaddedNegative)
    ensures Good(Parse(PaddedNegative)) && Value(Parse(PaddedNegative)) == -100_000_000
    ensures var r := ParseAsWritten(PaddedNegative);
            r.Some? && Sized(r.value) && !Good(r.value)
            && Value(r.value) == -100_000_000
            && !Equal(r.value, Parse(PaddedNegative))
  {
    var s := PaddedNegative;
    PaddedNegativeDigits();
    ParseValue(s);
    PaddedNegativeChunks();
    assert Stoi("01") == Some(1);
    var r := ParseAsWritten(s).value;
    assert r == BigInt([100_000_000, 0], 2, true);
    assert Digits(r) == [100_000_000, 0];
  }

  lemma PaddedNegativeDigits()
    ensures IsNumeral(PaddedNegative) && Minus(PaddedNegative) == 1
    ensures DigitsFrom(PaddedNegative, 2) && DigitsValue(PaddedNegative[2..]) == 100_000_000
    ensures NumeralMagnitude(PaddedNegative) == 100_000_000
  {
    var s, tail := PaddedNegative, "1" + seq(8, _ => '0');
    assert s[2..] == tail;
    ZerosValue(8);
    DigitsValueAppend("1", seq(8, _ => '0'));
    assert s[1..] == "0" + tail;
    DigitsValueAppend("0", tail);
  }

  lemma PaddedNegativeChunks()
    requires IsNumeral(PaddedNegative)
    ensures ReadChunks(PaddedNegative, 1, |PaddedNegative|, [], 0) == ([100_000_000], 1, 2)
    ensures WrittenTest(PaddedNegative) == "01" && LeadingGroup(PaddedNegative) == 0
  {
    var s := PaddedNegative;
    PaddedNegativeDigits();
    ChunksOf(s);
    var c := ReadChunks(s, 1, |s|, [], 0);
    assert |c.0| == 1 && c.2 == 2;
    assert Mag(c.0) == c.0[0] + Base * Mag(c.0[1..]) && c.0[1..] == [];
    assert c.0 == [100_000_000] && c.1 == 1;
    assert s[1..3] == "01" && s[1..2] == "0";
    assert WrittenTest(s) == s[1..3];
    assert LeadingGroup(s) == DigitsValue(s[1..2]);
    assert DigitsValue("0") == DigitsValue("") * 10 + DigitValue('0') == 0;
  }
}
