/** A growable, NUL-terminated character string (String/string.cpp): the
    characters in use plus a capacity.  The terminator and the heap buffer
    are not represented; the capacity is, since every operation documents
    how it grows it. */
module Strings {
  import opened Wrappers
  import opened Arith

  datatype Str = Str(chars: seq<char>, capacity: nat)

  /** size_ never exceeds capacity_. */
  predicate Valid(s: Str) {
    |s.chars| <= s.capacity
  }

  const NUL: char := 0 as char

  /** A C string: no NUL before the terminator. */
  predicate NoNul(cs: seq<char>) {
    forall i :: 0 <= i < |cs| ==> cs[i] != NUL
  }

  /** String(): empty, no buffer. */
  const Empty: Str := Str([], 0)

  /** String(size, character): `size` copies, capacity twice the size. */
  function Filled(size: nat, character: char): (r: Str)
    ensures Valid(r) && |r.chars| == size && r.capacity == 2 * size
    ensures forall i :: 0 <= i < size ==> r.chars[i] == character
  {
    Str(seq(size, _ => character), 2 * size)
  }

  /** String(const char*): the characters up to the terminator, capacity
      twice the length. */
  function FromCString(cs: seq<char>): (r: Str)
    requires NoNul(cs)
    ensures Valid(r) && r.chars == cs && r.capacity == 2 * |cs|
  {
    Str(cs, 2 * |cs|)
  }

  /** The copy constructor: same characters, capacity twice the size. */
  function Copy(s: Str): (r: Str)
    ensures Valid(r) && r.chars == s.chars && r.capacity == 2 * |s.chars|
  {
    Str(s.chars, 2 * |s.chars|)
  }

  /** operator=: self-assignment changes nothing; otherwise the target
      becomes a fresh copy of the source (copy and swap). */
  function Assign(target: Str, source: Str, sameObject: bool): (r: Str)
    requires sameObject ==> target == source
    ensures r.chars == source.chars
    ensures sameObject ==> r == target
    ensures !sameObject ==> r.capacity == 2 * |source.chars|
  {
    if sameObject then target else Copy(source)
  }

  /** Clear: size 0, capacity kept. */
  function Clear(s: Str): (r: Str)
    ensures r.chars == [] && r.capacity == s.capacity
  {
    s.(chars := [])
  }

  /** Reserve: grows the capacity to `newCap` when that is larger, keeping
      the characters; never shrinks. */
  function Reserve(s: Str, newCap: nat): (r: Str)
    ensures r.chars == s.chars
    ensures r.capacity >= s.capacity && r.capacity >= newCap
    ensures r.capacity == if newCap > s.capacity then newCap else s.capacity
  {
    if newCap > s.capacity then s.(capacity := newCap) else s
  }

  /** PushBack: one more character at the end; when the new size exceeds
      the capacity, the capacity becomes twice the new size. */
  function PushBack(s: Str, ch: char): (r: Str)
    requires Valid(s)
    ensures Valid(r) && r.chars == s.chars + [ch]
    ensures r.capacity == if |s.chars| + 1 > s.capacity then 2 * (|s.chars| + 1) else s.capacity
  {
    var size := |s.chars| + 1;
    var grown := if size > s.capacity then Reserve(s, 2 * size) else s;
    grown.(chars := s.chars + [ch])
  }

  /** PopBack: nothing on an empty string; otherwise drop the last
      character. */
  function PopBack(s: Str): (r: Str)
    ensures r.capacity == s.capacity
    ensures |s.chars| == 0 ==> r == s
    ensures |s.chars| > 0 ==> r.chars == s.chars[..|s.chars| - 1]
  {
    if |s.chars| == 0 then s else s.(chars := s.chars[..|s.chars| - 1])
  }

  /** PopBack undoes PushBack (the capacity may have grown). */
  lemma PopUndoesPush(s: Str, ch: char)
    requires Valid(s)
    ensures PopBack(PushBack(s, ch)).chars == s.chars
  {
  }

  /** Resize(n): reserve n when the capacity is smaller, then set the size.
      Growing exposes whatever the buffer held past the old size; those
      characters are the `leftover` argument. */
  function Resize(s: Str, n: nat, leftover: seq<char>): (r: Str)
    requires Valid(s) && |s.chars| + |leftover| >= n
    ensures Valid(r) && |r.chars| == n
    ensures r.capacity == if s.capacity < n then n else s.capacity
    ensures n <= |s.chars| ==> r.chars == s.chars[..n]
    ensures n > |s.chars| ==> r.chars == s.chars + leftover[..n - |s.chars|]
  {
    var grown := if s.capacity < n then Reserve(s, n) else s;
    if n <= |s.chars| then grown.(chars := s.chars[..n])
    else grown.(chars := s.chars + leftover[..n - |s.chars|])
  }

  /** Resize(n, character): the free part of the buffer is filled with the
      character first, so growing appends copies of it. */
  function ResizeFill(s: Str, n: nat, character: char): (r: Str)
    requires Valid(s)
    ensures Valid(r) && |r.chars| == n
    ensures forall i :: 0 <= i < n && i < |s.chars| ==> r.chars[i] == s.chars[i]
    ensures forall i :: |s.chars| <= i < n ==> r.chars[i] == character
  {
    var grown := if s.capacity < n then Reserve(s, n) else s;
    var fill := seq(grown.capacity - |s.chars|, _ => character);
    Resize(grown, n, fill)
  }

  /** ShrinkToFit: the capacity drops to the size. */
  function ShrinkToFit(s: Str): (r: Str)
    requires Valid(s)
    ensures Valid(r) && r.chars == s.chars && r.capacity == |s.chars|
  {
    if s.capacity > |s.chars| then Reserve(s.(capacity := |s.chars|), |s.chars|) else s
  }

  /** operator+=: when the combined size exceeds the capacity, the
      capacity becomes twice the combined size. */
  function Append(s: Str, t: Str): (r: Str)
    requires Valid(s)
    ensures Valid(r) && r.chars == s.chars + t.chars
    ensures r.capacity == if s.capacity < |s.chars| + |t.chars| then 2 * (|s.chars| + |t.chars|) else s.capacity
  {
    var total := |s.chars| + |t.chars|;
    var grown := if s.capacity < total then Reserve(s, 2 * total) else s;
    grown.(chars := s.chars + t.chars)
  }

  /** `cs` written n times in a row. */
  function Repeat(cs: seq<char>, n: nat): (r: seq<char>)
    ensures |r| == n * |cs|
  {
    if n == 0 then [] else Repeat(cs, n - 1) + cs
  }

  lemma {:induction false} RepeatAt(cs: seq<char>, n: nat, i: nat)
    requires i < n * |cs|
    ensures Repeat(cs, n)[i] == cs[i % |cs|]
  {
    var prev := Repeat(cs, n - 1);
    if i >= |prev| {
      DivModUnique(i, |cs|, n - 1, i - |prev|);
    } else {
      RepeatAt(cs, n - 1, i);
    }
  }

  /** operator*=(n): reserve when needed, then fill positions 0 .. n·size-1
      in place from position i mod size. */
  method RepeatAssign(s: Str, n: nat) returns (r: Str)
    requires Valid(s)
    ensures Valid(r) && |r.chars| == n * |s.chars|
    ensures forall i :: 0 <= i < |r.chars| ==> r.chars[i] == s.chars[i % |s.chars|]
    ensures r.chars == Repeat(s.chars, n)
    ensures r.capacity == if s.capacity <= n * |s.chars| then 2 * (n * |s.chars|) + 1 else s.capacity
  {
    var size := |s.chars|;
    var total := n * size;
    var grown := if s.capacity <= total then Reserve(s, 2 * total + 1) else s;
    var buffer := s.chars + seq(if total >= size then total - size else 0, _ => NUL);
    var i := 0;
    while i < total
      invariant i <= total <= |buffer|
      invariant |buffer| >= size && buffer[..size] == s.chars
      invariant forall j :: 0 <= j < i ==> buffer[j] == s.chars[j % size]
    {
      if i < size {
        DivModUnique(i, size, 0, i);
      }
      buffer := buffer[i := buffer[i % size]];
      i := i + 1;
    }
    var out := buffer[..total];
    forall j | 0 <= j < total
      ensures out[j] == Repeat(s.chars, n)[j]
    {
      RepeatAt(s.chars, n, j);
    }
    r := grown.(chars := out);
  }

  // ---------------------------------------------------------------------
  // Split and Join

  /** d occurs in s at position p. */
  predicate OccursAt(s: seq<char>, d: seq<char>, p: nat) {
    p + |d| <= |s| && s[p..p + |d|] == d
  }

  /** strstr: the leftmost occurrence of d in s at or after `from`. */
  function Find(s: seq<char>, d: seq<char>, from: nat): (r: Option<nat>)
    ensures r.Some? ==> from <= r.value && OccursAt(s, d, r.value)
    ensures r.Some? ==> forall q :: from <= q < r.value ==> !OccursAt(s, d, q)
    ensures r.None? ==> forall q :: from <= q ==> !OccursAt(s, d, q)
    decreases |s| - from
  {
    if from + |d| > |s| then None
    else if s[from..from + |d|] == d then Some(from)
    else Find(s, d, from + 1)
  }

  /** The pieces of s between the leftmost non-overlapping occurrences of
      d, left to right, and the remainder after the last one. */
  function SplitChars(s: seq<char>, d: seq<char>): (r: seq<seq<char>>)
    requires |d| > 0
    ensures |r| >= 1
    decreases |s|
  {
    match Find(s, d, 0)
    case None => [s]
    case Some(p) => [s[..p]] + SplitChars(s[p + |d|..], d)
  }

  /** The pieces joined with the separator between consecutive ones. */
  function JoinChars(d: seq<char>, pieces: seq<seq<char>>): seq<char> {
    if |pieces| == 0 then []
    else if |pieces| == 1 then pieces[0]
    else pieces[0] + d + JoinChars(d, pieces[1..])
  }

  lemma {:induction false} JoinCharsSnoc(d: seq<char>, pieces: seq<seq<char>>, last: seq<char>)
    requires |pieces| >= 1
    ensures JoinChars(d, pieces + [last]) == JoinChars(d, pieces) + d + last
    decreases |pieces|
  {
    if |pieces| > 1 {
      assert (pieces + [last])[1..] == pieces[1..] + [last];
      JoinCharsSnoc(d, pieces[1..], last);
    }
  }

  /** Joining the pieces of a split with the delimiter restores the
      original text. */
  lemma {:induction false} JoinSplitRoundTrip(s: seq<char>, d: seq<char>)
    requires |d| > 0
    ensures JoinChars(d, SplitChars(s, d)) == s
    decreases |s|
  {
    match Find(s, d, 0)
    case None =>
    case Some(p) =>
      var rest := s[p + |d|..];
      var tail := SplitChars(rest, d);
      JoinSplitRoundTrip(rest, d);
      assert SplitChars(s, d) == [s[..p]] + tail;
      assert ([s[..p]] + tail)[1..] == tail;
      assert JoinChars(d, [s[..p]] + tail) == s[..p] + d + JoinChars(d, tail);
      assert s == s[..p] + s[p..p + |d|] + rest;
  }

  /** No piece contains the delimiter: every occurrence was cut at, and
      the remainder after the last cut has none. */
  lemma {:induction false} SplitPiecesAvoidDelimiter(s: seq<char>, d: seq<char>, k: nat, q: nat)
    requires |d| > 0 && k < |SplitChars(s, d)|
    requires q + |d| <= |SplitChars(s, d)[k]|
    ensures !OccursAt(SplitChars(s, d)[k], d, q)
    decreases |s|
  {
    var f := Find(s, d, 0);
    if f.None? {
      assert SplitChars(s, d)[k] == s;
    } else if k == 0 {
      var p := f.value;
      assert SplitChars(s, d)[0] == s[..p];
      assert s[..p][q..q + |d|] == s[q..q + |d|];
      assert !OccursAt(s, d, q);
    } else {
      var p := f.value;
      var rest := s[p + |d|..];
      assert SplitChars(s, d)[k] == SplitChars(rest, d)[k - 1];
      SplitPiecesAvoidDelimiter(rest, d, k - 1, q);
    }
  }

  /** Where piece k starts in the text the pieces were cut from: every
      earlier piece and the delimiter after it come first. */
  function PieceStart(pieces: seq<seq<char>>, d: seq<char>, k: nat): nat
    requires k <= |pieces|
  {
    if k == 0 then 0 else |pieces[0]| + |d| + PieceStart(pieces[1..], d, k - 1)
  }

  /** Each piece but the last ends where an occurrence of d begins. */
  ghost predicate CutsAtOccurrences(s: seq<char>, d: seq<char>, pieces: seq<seq<char>>)
  {
    forall k :: 0 <= k < |pieces| - 1 ==> OccursAt(s, d, PieceStart(pieces, d, k) + |pieces[k]|)
  }

  /** No occurrence of d begins inside a piece. */
  ghost predicate NoneInside(s: seq<char>, d: seq<char>, pieces: seq<seq<char>>)
  {
    forall k, q :: 0 <= k < |pieces| && PieceStart(pieces, d, k) <= q < PieceStart(pieces, d, k) + |pieces[k]|
      ==> !OccursAt(s, d, q)
  }

  /** No occurrence of d begins at or after the start of the last piece. */
  ghost predicate NoneAfterLast(s: seq<char>, d: seq<char>, pieces: seq<seq<char>>)
    requires |pieces| >= 1
  {
    forall q :: PieceStart(pieces, d, |pieces| - 1) <= q ==> !OccursAt(s, d, q)
  }

  /** The cuts strstr makes scanning from the left: every cut is at the
      first occurrence of d after the previous one, and the text after the
      last cut holds no occurrence. */
  ghost predicate LeftmostCuts(s: seq<char>, d: seq<char>, pieces: seq<seq<char>>)
    requires |pieces| >= 1
  {
    CutsAtOccurrences(s, d, pieces) && NoneInside(s, d, pieces) && NoneAfterLast(s, d, pieces)
  }

  /** An occurrence in a suffix is an occurrence in the text, shifted. */
  lemma OccursShift(s: seq<char>, d: seq<char>, base: nat, q: nat)
    requires base <= |s|
    ensures OccursAt(s[base..], d, q) <==> OccursAt(s, d, base + q)
  {
    if base + q + |d| <= |s| {
      assert s[base..][q..q + |d|] == s[base + q..base + q + |d|];
    }
  }

  /** The start of piece k + 1 after one more leading piece. */
  lemma PieceStartCons(a: seq<char>, pieces: seq<seq<char>>, d: seq<char>, k: nat)
    requires k <= |pieces|
    ensures PieceStart([a] + pieces, d, k + 1) == |a| + |d| + PieceStart(pieces, d, k)
    ensures k < |pieces| ==> ([a] + pieces)[k + 1] == pieces[k]
  {
    assert ([a] + pieces)[1..] == pieces;
  }

  /** Each piece after the first ends at an occurrence. */
  lemma ConsEnds(s: seq<char>, d: seq<char>, p: nat, tail: seq<seq<char>>, k: nat)
    requires p + |d| <= |s| && 1 <= k < |tail|
    requires OccursAt(s[p + |d|..], d, PieceStart(tail, d, k - 1) + |tail[k - 1]|)
    ensures OccursAt(s, d, PieceStart([s[..p]] + tail, d, k) + |([s[..p]] + tail)[k]|)
  {
    PieceStartCons(s[..p], tail, d, k - 1);
    OccursShift(s, d, p + |d|, PieceStart(tail, d, k - 1) + |tail[k - 1]|);
  }

  /** No occurrence begins inside a piece after the first. */
  lemma ConsInside(s: seq<char>, d: seq<char>, p: nat, rest: seq<char>, tail: seq<seq<char>>, k: nat, q: nat)
    requires p + |d| <= |s| && rest == s[p + |d|..] && 1 <= k <= |tail|
    requires PieceStart([s[..p]] + tail, d, k) <= q < PieceStart([s[..p]] + tail, d, k) + |([s[..p]] + tail)[k]|
    requires forall q' :: PieceStart(tail, d, k - 1) <= q' < PieceStart(tail, d, k - 1) + |tail[k - 1]|
               ==> !OccursAt(rest, d, q')
    ensures !OccursAt(s, d, q)
  {
    PieceStartCons(s[..p], tail, d, k - 1);
    var q' := q - (p + |d|);
    assert !OccursAt(rest, d, q');
    OccursShift(s, d, p + |d|, q');
  }

  /** No occurrence begins at or after the start of the last piece. */
  lemma ConsLast(s: seq<char>, d: seq<char>, p: nat, rest: seq<char>, tail: seq<seq<char>>, q: nat)
    requires p + |d| <= |s| && rest == s[p + |d|..] && |tail| >= 1
    requires PieceStart([s[..p]] + tail, d, |tail|) <= q
    requires forall q' :: PieceStart(tail, d, |tail| - 1) <= q' ==> !OccursAt(rest, d, q')
    ensures !OccursAt(s, d, q)
  {
    PieceStartCons(s[..p], tail, d, |tail| - 1);
    var q' := q - (p + |d|);
    assert !OccursAt(rest, d, q');
    OccursShift(s, d, p + |d|, q');
  }

  lemma ConsCutsAtOccurrences(s: seq<char>, d: seq<char>, p: nat, rest: seq<char>, tail: seq<seq<char>>)
    requires p + |d| <= |s| && rest == s[p + |d|..] && OccursAt(s, d, p) && |tail| >= 1
    requires CutsAtOccurrences(rest, d, tail)
    ensures CutsAtOccurrences(s, d, [s[..p]] + tail)
  {
    var pieces := [s[..p]] + tail;
    forall k | 0 <= k < |pieces| - 1
      ensures OccursAt(s, d, PieceStart(pieces, d, k) + |pieces[k]|)
    {
      if k > 0 {
        ConsEnds(s, d, p, tail, k);
      }
    }
  }

  lemma ConsNoneInside(s: seq<char>, d: seq<char>, p: nat, rest: seq<char>, tail: seq<seq<char>>)
    requires p + |d| <= |s| && rest == s[p + |d|..]
    requires forall q :: 0 <= q < p ==> !OccursAt(s, d, q)
    requires NoneInside(rest, d, tail)
    ensures NoneInside(s, d, [s[..p]] + tail)
  {
    var pieces := [s[..p]] + tail;
    forall k, q | 0 <= k < |pieces| && PieceStart(pieces, d, k) <= q < PieceStart(pieces, d, k) + |pieces[k]|
      ensures !OccursAt(s, d, q)
    {
      if k > 0 {
        ConsInside(s, d, p, rest, tail, k, q);
      }
    }
  }

  lemma ConsNoneAfterLast(s: seq<char>, d: seq<char>, p: nat, rest: seq<char>, tail: seq<seq<char>>)
    requires p + |d| <= |s| && rest == s[p + |d|..] && |tail| >= 1
    requires NoneAfterLast(rest, d, tail)
    ensures NoneAfterLast(s, d, [s[..p]] + tail)
  {
    var pieces := [s[..p]] + tail;
    forall q | PieceStart(pieces, d, |pieces| - 1) <= q
      ensures !OccursAt(s, d, q)
    {
      ConsLast(s, d, p, rest, tail, q);
    }
  }

  /** One more cut in front: when the leftmost occurrence from the start
      is at p and the rest after it is cut leftmost, so is the whole. */
  lemma LeftmostCutsCons(s: seq<char>, d: seq<char>, p: nat, tail: seq<seq<char>>)
    requires p + |d| <= |s| && OccursAt(s, d, p) && |tail| >= 1
    requires forall q :: 0 <= q < p ==> !OccursAt(s, d, q)
    requires LeftmostCuts(s[p + |d|..], d, tail)
    ensures LeftmostCuts(s, d, [s[..p]] + tail)
  {
    var rest := s[p + |d|..];
    ConsCutsAtOccurrences(s, d, p, rest, tail);
    ConsNoneInside(s, d, p, rest, tail);
    ConsNoneAfterLast(s, d, p, rest, tail);
  }

  /** SplitChars cuts exactly where strstr finds the delimiter. */
  lemma {:induction false} SplitCutsLeftmost(s: seq<char>, d: seq<char>)
    requires |d| > 0
    ensures LeftmostCuts(s, d, SplitChars(s, d))
    decreases |s|
  {
    var f := Find(s, d, 0);
    if f.None? {
      assert SplitChars(s, d) == [s];
    } else {
      var p := f.value;
      var rest := s[p + |d|..];
      assert SplitChars(s, d) == [s[..p]] + SplitChars(rest, d);
      SplitCutsLeftmost(rest, d);
      LeftmostCutsCons(s, d, p, SplitChars(rest, d));
    }
  }

  /** Split(delimiter): each piece becomes a new String built from its
      characters, so its capacity is twice its length.  The delimiter must
      not be empty (the search would never advance) and neither text may
      contain NUL (the search stops there). */
  function Split(s: Str, delimiter: Str): (r: seq<Str>)
    requires |delimiter.chars| > 0 && NoNul(s.chars) && NoNul(delimiter.chars)
    ensures |r| >= 1
    ensures forall k :: 0 <= k < |r| ==> Valid(r[k]) && r[k].capacity == 2 * |r[k].chars|
    ensures JoinChars(delimiter.chars, seq(|r|, k requires 0 <= k < |r| => r[k].chars)) == s.chars
    ensures forall k, q: nat :: 0 <= k < |r| && q + |delimiter.chars| <= |r[k].chars| ==>
              !OccursAt(r[k].chars, delimiter.chars, q)
    ensures LeftmostCuts(s.chars, delimiter.chars, seq(|r|, k requires 0 <= k < |r| => r[k].chars))
  {
    var pieces := SplitChars(s.chars, delimiter.chars);
    var r := seq(|pieces|, k requires 0 <= k < |pieces| => Str(pieces[k], 2 * |pieces[k]|));
    assert seq(|r|, k requires 0 <= k < |r| => r[k].chars) == pieces;
    JoinSplitRoundTrip(s.chars, delimiter.chars);
    SplitCutsLeftmost(s.chars, delimiter.chars);
    assert forall k, q: nat :: 0 <= k < |r| && q + |delimiter.chars| <= |r[k].chars| ==>
             !OccursAt(r[k].chars, delimiter.chars, q) by {
      forall k, q: nat | 0 <= k < |r| && q + |delimiter.chars| <= |r[k].chars|
        ensures !OccursAt(r[k].chars, delimiter.chars, q)
      {
        SplitPiecesAvoidDelimiter(s.chars, delimiter.chars, k, q);
      }
    }
    r
  }

  /** Join: the first string, then for each further string the separator
      (this string) and that string, each appended with +=.  An empty list
      gives an empty string. */
  method Join(separator: Str, strings: seq<Str>) returns (r: Str)
    ensures Valid(r)
    ensures r.chars == JoinChars(separator.chars, seq(|strings|, k requires 0 <= k < |strings| => strings[k].chars))
  {
    var texts := seq(|strings|, k requires 0 <= k < |strings| => strings[k].chars);
    r := FromCString([]);
    if |strings| > 0 {
      // the summed size is reserved, then discarded by the assignment
      r := Reserve(r, |JoinChars(separator.chars, texts)|);
      r := Assign(r, strings[0], false);
      var i := 1;
      while i < |strings|
        invariant 1 <= i <= |strings| && Valid(r)
        invariant r.chars == JoinChars(separator.chars, texts[..i])
      {
        assert texts[..i + 1] == texts[..i] + [texts[i]];
        JoinCharsSnoc(separator.chars, texts[..i], texts[i]);
        r := Append(r, separator);
        r := Append(r, strings[i]);
        i := i + 1;
      }
      assert texts[..|strings|] == texts;
    }
  }

  /** Every operation keeps the size within the capacity. */
  lemma OperationsKeepValid(s: Str, t: Str, ch: char, n: nat)
    requires Valid(s)
    ensures Valid(Clear(s)) && Valid(Reserve(s, n)) && Valid(PopBack(s))
    ensures Valid(PushBack(s, ch)) && Valid(Append(s, t)) && Valid(ShrinkToFit(s)) && Valid(ResizeFill(s, n, ch))
  {
  }
}
