/** Python's indexing and slicing rules for lists and strings, used by the
    card-game modules: a negative index counts from the end, an index out of
    range raises IndexError (None here), and a slice bound is clamped. */
module PyLists {
  import opened Wrappers

  /** The position `xs[i]` and `xs.pop(i)` address, or None for IndexError. */
  function Index(i: int, len: nat): (r: Option<nat>)
    ensures r.Some? <==> -(len as int) <= i < len
    ensures r.Some? ==> r.value < len && (r.value == i || r.value == i + len)
  {
    if 0 <= i < len then Some(i)
    else if -(len as int) <= i < 0 then Some(i + len)
    else None
  }

  /** The cut point of `xs[:n]` / `xs[n:]`: negative bounds count from the
      end, and bounds outside the list are clamped to its ends. */
  function SliceBound(n: int, len: nat): (r: nat)
    ensures r <= len
    ensures 0 <= n <= len ==> r == n
    ensures n > len ==> r == len
    ensures n < 0 ==> r == if n + len < 0 then 0 else n + len
  {
    if n < 0 then (if n + len < 0 then 0 else n + len)
    else if n > len then len
    else n
  }

  /** `xs[:n]` and `xs[n:]` together: the two halves always rejoin to xs. */
  function Split<T>(xs: seq<T>, n: int): (r: (seq<T>, seq<T>))
    ensures r.0 + r.1 == xs
    ensures |r.0| == SliceBound(n, |xs|)
  {
    var k := SliceBound(n, |xs|);
    assert xs[..k] + xs[k..] == xs;
    (xs[..k], xs[k..])
  }

  /** `xs.pop(i)`: the element at the normalised index is removed and the
      others keep their order. */
  function RemoveAt<T>(xs: seq<T>, k: nat): (r: seq<T>)
    requires k < |xs|
    ensures |r| == |xs| - 1
    ensures forall j :: 0 <= j < k ==> r[j] == xs[j]
    ensures forall j :: k <= j < |r| ==> r[j] == xs[j + 1]
  {
    xs[..k] + xs[k + 1..]
  }
}
