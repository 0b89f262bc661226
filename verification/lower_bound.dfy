/** Binary search for the insertion point of a value in a sorted int range
    (LowerBound/bin_search.hpp).  The range [first, last) is a sequence and
    the returned pointer `first + r` is the index r. */
module LowerBound {

  predicate Sorted(a: seq<int>) {
    forall i, j :: 0 <= i < j < |a| ==> a[i] <= a[j]
  }

  predicate StrictlyIncreasing(a: seq<int>) {
    forall i, j :: 0 <= i < j < |a| ==> a[i] < a[j]
  }

  /** The search read recursively: halve [lo, hi) until one element is
      left, then step past it when it is below the value. */
  ghost function Bisect(a: seq<int>, value: int, lo: nat, hi: nat): (r: nat)
    requires lo < hi <= |a|
    ensures lo <= r <= hi
    decreases hi - lo
  {
    if hi - lo > 1 then
      var middle := (hi - lo) / 2;
      if value < a[lo + middle] then Bisect(a, value, lo, hi - middle)
      else Bisect(a, value, lo + middle, hi)
    else if value > a[lo] then lo + 1
    else lo
  }

  /** On a sorted range the halving keeps everything left of `lo` at most
      the value, so everything left of the final position is too. */
  lemma {:induction false} BisectLeftAtMost(a: seq<int>, value: int, lo: nat, hi: nat)
    requires lo < hi <= |a| && Sorted(a)
    requires lo > 0 ==> a[lo] <= value
    ensures forall i :: 0 <= i < Bisect(a, value, lo, hi) ==> a[i] <= value
    decreases hi - lo
  {
    if hi - lo > 1 {
      var middle := (hi - lo) / 2;
      if value < a[lo + middle] {
        BisectLeftAtMost(a, value, lo, hi - middle);
      } else {
        BisectLeftAtMost(a, value, lo + middle, hi);
      }
    } else {
      forall i | 0 <= i < lo
        ensures a[i] <= value
      {
        assert a[i] <= a[lo];
      }
    }
  }

  /** On a sorted range the halving keeps everything from `hi` on at least
      the value, so everything from the final position on is too. */
  lemma {:induction false} BisectRightAtLeast(a: seq<int>, value: int, lo: nat, hi: nat)
    requires lo < hi <= |a| && Sorted(a)
    requires forall i :: hi <= i < |a| ==> a[i] >= value
    ensures forall i :: Bisect(a, value, lo, hi) <= i < |a| ==> a[i] >= value
    decreases hi - lo
  {
    if hi - lo > 1 {
      var middle := (hi - lo) / 2;
      if value < a[lo + middle] {
        forall i | hi - middle <= i < |a|
          ensures a[i] >= value
        {
          if i < hi {
            assert a[lo + middle] <= a[i];
          }
        }
        BisectRightAtLeast(a, value, lo, hi - middle);
      } else {
        BisectRightAtLeast(a, value, lo + middle, hi);
      }
    }
  }

  /** On a strictly increasing range every element left of the result is
      below the value: the result is the first position not below it. */
  lemma {:induction false} BisectFirstWhenStrict(a: seq<int>, value: int, lo: nat, hi: nat)
    requires lo < hi <= |a| && StrictlyIncreasing(a)
    requires lo > 0 ==> a[lo] <= value
    ensures forall i :: 0 <= i < Bisect(a, value, lo, hi) ==> a[i] < value
    decreases hi - lo
  {
    if hi - lo > 1 {
      var middle := (hi - lo) / 2;
      if value < a[lo + middle] {
        BisectFirstWhenStrict(a, value, lo, hi - middle);
      } else {
        BisectFirstWhenStrict(a, value, lo + middle, hi);
      }
    } else {
      forall i | 0 <= i < lo
        ensures a[i] < value
      {
        assert a[i] < a[lo];
      }
    }
  }

  /** The halving never leaves [lo, hi]; it reaches hi only by stepping
      past a last element that is below the value. */
  lemma {:induction false} BisectBounds(a: seq<int>, value: int, lo: nat, hi: nat)
    requires lo < hi <= |a|
    ensures value <= a[hi - 1] ==> Bisect(a, value, lo, hi) < hi
    decreases hi - lo
  {
    if hi - lo > 1 {
      var middle := (hi - lo) / 2;
      if value < a[lo + middle] {
        BisectBounds(a, value, lo, hi - middle);
      } else {
        BisectBounds(a, value, lo + middle, hi);
      }
    }
  }

  /** The function as written.  The range must not be empty: its last
      element is read before anything else. */
  method LowerBound(a: seq<int>, value: int) returns (r: nat)
    requires |a| > 0
    ensures r <= |a|
    ensures r == |a| <==> value > a[|a| - 1]
    ensures Sorted(a) ==> (forall i :: 0 <= i < r ==> a[i] <= value) && (forall i :: r <= i < |a| ==> a[i] >= value)
    ensures StrictlyIncreasing(a) ==> forall i :: 0 <= i < r ==> a[i] < value
    ensures value <= a[|a| - 1] ==> r == Bisect(a, value, 0, |a|)
  {
    if value > a[|a| - 1] {
      return |a|;
    }
    var first, last := 0, |a|;
    while last - first > 1
      invariant 0 <= first < last <= |a|
      invariant Bisect(a, value, first, last) == Bisect(a, value, 0, |a|)
      decreases last - first
    {
      var middle := (last - first) / 2;
      if value < a[first + middle] {
        last := last - middle;
      } else {
        first := first + middle;
      }
    }
    r := first;
    if value > a[first] {
      r := first + 1;
    }
    BisectBounds(a, value, 0, |a|);
    if Sorted(a) {
      BisectLeftAtMost(a, value, 0, |a|);
      BisectRightAtLeast(a, value, 0, |a|);
    }
    if StrictlyIncreasing(a) {
      BisectFirstWhenStrict(a, value, 0, |a|);
    }
  }

  /** With a repeated key the search lands past the first equal element:
      in [1, 1] the value 1 is found at index 1, although index 0 already
      holds it. */
  lemma RepeatedKeySkipsFirst()
    ensures Bisect([1, 1], 1, 0, 2) == 1
    ensures [1, 1][0] >= 1
  {
  }

  /** The evidently intended lower bound: the first position whose element
      is not below the value, also on ranges with repeated keys.  It keeps
      the non-empty-range requirement and the early exit of the original. */
  method LowerBoundFirst(a: seq<int>, value: int) returns (r: nat)
    requires |a| > 0
    ensures r <= |a|
    ensures r == |a| <==> value > a[|a| - 1]
    ensures Sorted(a) ==> (forall i :: 0 <= i < r ==> a[i] < value) && (forall i :: r <= i < |a| ==> a[i] >= value)
  {
    if value > a[|a| - 1] {
      return |a|;
    }
    var first, last := 0, |a| - 1;
    while first < last
      invariant 0 <= first <= last <= |a| - 1
      invariant value <= a[last]
      invariant Sorted(a) ==> forall i :: 0 <= i < first ==> a[i] < value
      invariant Sorted(a) ==> forall i :: last <= i < |a| ==> a[i] >= value
      decreases last - first
    {
      var middle := first + (last - first) / 2;
      if a[middle] < value {
        first := middle + 1;
      } else {
        last := middle;
      }
    }
    r := first;
  }
}
