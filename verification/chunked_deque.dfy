/** The chunked deque of Deque/deque.hpp.  Elements live in chunks of 16
    slots; `data_` maps chunk numbers to chunks, some of them allocated.
    Logical element i sits in chunk first_chunk + (first_element + i) / 16
    at offset (first_element + i) % 16.

    Chunk numbers here are unbounded integers, so the `reserve` step that
    re-centres the chunk table when it runs out at either end is not
    needed: a chunk keeps its number.  `live` is the set of allocated
    chunks, `cells` what has been constructed in each slot, and `started`
    whether default_construct has set up the table. */
module ChunkedDeques {
  import opened Wrappers
  import opened Arith

  const ChunkSize: nat := 16
  const NewChunks: nat := 69

  /** size_t arithmetic wraps modulo 2^64. */
  const Word: nat := 0x1_0000_0000_0000_0000

  type Slot = (int, nat)

  datatype Deque<T> = Deque(started: bool, live: set<int>, cells: map<Slot, T>,
                            firstChunk: int, firstElement: nat, size: nat)

  /** con_index: where logical element i lives. */
  function SlotOf<T>(d: Deque<T>, i: nat): (s: Slot)
    ensures s.1 < ChunkSize
  {
    (d.firstChunk + (d.firstElement + i) / ChunkSize, (d.firstElement + i) % ChunkSize)
  }

  /** Distinct logical positions occupy distinct slots. */
  lemma SlotInjective<T>(d: Deque<T>, i: nat, j: nat)
    requires i != j
    ensures SlotOf(d, i) != SlotOf(d, j)
  {
  }

  /** The first element's offset is inside its chunk, the start chunk is
      allocated once the table exists, and every element sits in a
      constructed slot of an allocated chunk. */
  predicate Valid<T>(d: Deque<T>) {
    && d.firstElement < ChunkSize
    && (!d.started ==> d.size == 0 && d.firstElement == 0)
    && (d.started ==> d.firstChunk in d.live)
    && (forall i :: 0 <= i < d.size ==> SlotOf(d, i).0 in d.live && SlotOf(d, i) in d.cells)
  }

  function Elements<T>(d: Deque<T>): (r: seq<T>)
    requires forall i :: 0 <= i < d.size ==> SlotOf(d, i) in d.cells
    ensures |r| == d.size
  {
    seq(d.size, i requires 0 <= i < d.size => d.cells[SlotOf(d, i)])
  }

  // ---------------------------------------------------------------------
  // Construction

  /** Deque(): no chunk table yet. */
  function Empty<T>(): (d: Deque<T>)
    ensures Valid(d) && d.size == 0 && Elements(d) == []
  {
    Deque(false, {}, map[], 0, 0, 0)
  }

  /** The first chunk of a table built for `count` elements, leaving
      about half of the spare chunks in front. */
  function FilledFirstChunk(count: nat): nat {
    count / ChunkSize + ((count / ChunkSize + 1) * NewChunks) / 2
  }

  /** The n chunk numbers from `first` on. */
  function ChunkRange(first: int, n: nat): (r: set<int>)
    ensures forall c :: c in r <==> first <= c < first + n
  {
    if n == 0 then {} else ChunkRange(first, n - 1) + {first + n - 1}
  }

  /** Deque(count, element): the chunks for `count` elements are allocated
      and every element is constructed from `element`.  Deque(count)
      constructs T() instead; pass that value as `element`. */
  function Filled<T>(count: nat, element: T): (d: Deque<T>)
  {
    var fc := FilledFirstChunk(count);
    var slots := set i | 0 <= i < count :: (fc + i / ChunkSize, i % ChunkSize);
    Deque(true, ChunkRange(fc, count / ChunkSize + 1), map s | s in slots :: element, fc, 0, count)
  }

  lemma FilledHoldsCopies<T>(count: nat, element: T)
    ensures Valid(Filled(count, element))
    ensures Elements(Filled(count, element)) == seq(count, _ => element)
  {
    var d := Filled(count, element);
    forall i | 0 <= i < count
      ensures SlotOf(d, i).0 in d.live && SlotOf(d, i) in d.cells
      ensures d.cells[SlotOf(d, i)] == element
    {
      FilledSlot(count, element, i);
    }
  }

  lemma FilledSlot<T>(count: nat, element: T, i: nat)
    requires i < count
    ensures var d := Filled(count, element);
            SlotOf(d, i).0 in d.live && SlotOf(d, i) in d.cells && d.cells[SlotOf(d, i)] == element
  {
    var d := Filled(count, element);
    var fc := FilledFirstChunk(count);
    var key := (fc + i / ChunkSize, i % ChunkSize);
    assert SlotOf(d, i) == key;
    assert key in d.cells;
    DivAtMost(i, count);
    assert key.0 in ChunkRange(fc, count / ChunkSize + 1);
  }

  lemma DivAtMost(a: nat, b: nat)
    requires a <= b
    ensures a / ChunkSize <= b / ChunkSize
  {
    var qa, qb := a / ChunkSize, b / ChunkSize;
    assert a == ChunkSize * qa + a % ChunkSize;
    assert b == ChunkSize * qb + b % ChunkSize;
    assert ChunkSize * qa < ChunkSize * (qb + 1);
  }

  /** default_construct: on first use, a table whose chunk 1 is allocated
      becomes the home of the (empty) deque. */
  function Start<T>(d: Deque<T>): (r: Deque<T>)
  {
    if d.started then d else d.(started := true, firstChunk := 1, live := d.live + {1})
  }

  // ---------------------------------------------------------------------
  // Element access

  function Size<T>(d: Deque<T>): nat {
    d.size
  }

  predicate IsEmpty<T>(d: Deque<T>) {
    d.size == 0
  }

  /** operator[]: no range check; the index must be in range. */
  function Get<T>(d: Deque<T>, i: nat): (r: T)
    requires Valid(d) && i < d.size
    ensures r == Elements(d)[i]
  {
    d.cells[SlotOf(d, i)]
  }

  /** at: out_of_range (None) exactly when the index is not below size. */
  function At<T>(d: Deque<T>, i: nat): (r: Option<T>)
    requires Valid(d)
    ensures r.None? <==> i >= d.size
    ensures r.Some? ==> r.value == Elements(d)[i]
  {
    if i >= d.size then None else Some(Get(d, i))
  }

  // ---------------------------------------------------------------------
  // Pushing

  /** The slot emplace_back constructs into. */
  function BackSlot<T>(d: Deque<T>): (s: Slot)
  {
    var s := Start(d);
    if s.size == 0 then (s.firstChunk, s.firstElement) else SlotOf(s, s.size)
  }

  /** emplace_back: on an empty deque the element goes to the first slot;
      otherwise to the slot after the last element, allocating its chunk
      when that slot opens a chunk that is not allocated. */
  function PushBack<T>(d: Deque<T>, x: T): (r: Deque<T>)
  {
    var s := Start(d);
    var slot := BackSlot(d);
    var grown := if s.size != 0 && slot.1 == 0 && slot.0 !in s.live then s.live + {slot.0} else s.live;
    s.(live := grown, cells := s.cells[slot := x], size := s.size + 1)
  }

  lemma PushBackAppends<T>(d: Deque<T>, x: T)
    requires Valid(d)
    ensures Valid(PushBack(d, x))
    ensures Elements(PushBack(d, x)) == Elements(d) + [x]
  {
    var s := Start(d);
    var r := PushBack(d, x);
    assert SlotOf(s, 0) == (s.firstChunk, s.firstElement);
    forall i | 0 <= i < s.size
      ensures SlotOf(r, i) == SlotOf(s, i) && SlotOf(s, i) != SlotOf(s, s.size)
    {
      SlotInjective(s, i, s.size);
    }
    if s.size != 0 && SlotOf(s, s.size).1 != 0 {
      var a := s.firstElement + s.size;
      assert a / ChunkSize == (a - 1) / ChunkSize by {
        DivModUnique(a - 1, ChunkSize, a / ChunkSize, a % ChunkSize - 1);
      }
      assert SlotOf(s, s.size).0 == SlotOf(s, s.size - 1).0;
    }
  }

  /** emplace_front: on an empty deque the element goes to the first slot;
      otherwise the start moves back one slot, into a newly allocated
      chunk in front when it was at offset 0. */
  function PushFront<T>(d: Deque<T>, x: T): (r: Deque<T>)
  {
    var s := Start(d);
    if s.size == 0 then
      s.(cells := s.cells[(s.firstChunk, s.firstElement) := x], size := 1)
    else if s.firstElement != 0 then
      var moved := s.(firstElement := s.firstElement - 1);
      moved.(cells := s.cells[(s.firstChunk, s.firstElement - 1) := x], size := s.size + 1)
    else
      var fc := s.firstChunk - 1;
      s.(firstChunk := fc, firstElement := ChunkSize - 1, live := s.live + {fc},
         cells := s.cells[(fc, ChunkSize - 1) := x], size := s.size + 1)
  }

  lemma PushFrontPrepends<T>(d: Deque<T>, x: T)
    requires Valid(d)
    ensures Valid(PushFront(d, x))
    ensures Elements(PushFront(d, x)) == [x] + Elements(d)
  {
    var s := Start(d);
    var r := PushFront(d, x);
    if s.size != 0 {
      assert SlotOf(r, 0) == (r.firstChunk, r.firstElement);
      forall i | 0 <= i < s.size
        ensures SlotOf(r, i + 1) == SlotOf(s, i) && SlotOf(s, i) != SlotOf(r, 0)
      {
        var a := s.firstElement + i;
        if s.firstElement != 0 {
          assert r.firstElement + i + 1 == a;
        } else {
          assert r.firstElement + i + 1 == a + ChunkSize;
          DivModUnique(a + ChunkSize, ChunkSize, a / ChunkSize + 1, a % ChunkSize);
        }
        SlotInjective(r, 0, i + 1);
      }
      forall i | 0 <= i < r.size
        ensures SlotOf(r, i).0 in r.live && SlotOf(r, i) in r.cells
      {
        if i > 0 {
          assert SlotOf(r, i) == SlotOf(s, i - 1);
        }
      }
    }
  }

  // ---------------------------------------------------------------------
  // Popping

  /** pop_back: nothing on an empty deque; a last element is just
      dropped; otherwise, when the popped element sits in the last slot of
      its chunk (so the offset just past it is a chunk boundary), the chunk
      after the popped element's chunk is deallocated, which is the chunk
      the next push_back would open. */
  function PopBack<T>(d: Deque<T>): (r: Deque<T>)
  {
    if d.size == 0 then d
    else if d.size == 1 then d.(size := 0)
    else if (d.firstElement + d.size) % ChunkSize == 0 then
      d.(live := d.live - {d.firstChunk + (d.firstElement + d.size) / ChunkSize}, size := d.size - 1)
    else d.(size := d.size - 1)
  }

  lemma PopBackRemovesLast<T>(d: Deque<T>)
    requires Valid(d)
    ensures Valid(PopBack(d))
    ensures d.size == 0 ==> PopBack(d) == d
    ensures d.size > 0 ==> Elements(PopBack(d)) == Elements(d)[..d.size - 1]
  {
    var r := PopBack(d);
    assert forall i :: 0 <= i < r.size ==> SlotOf(r, i) == SlotOf(d, i);
    if d.size >= 2 && (d.firstElement + d.size) % ChunkSize == 0 {
      var a := d.firstElement + d.size;
      var gone := d.firstChunk + a / ChunkSize;
      assert a >= ChunkSize;
      forall i | 0 <= i < r.size
        ensures SlotOf(r, i) == SlotOf(d, i) && SlotOf(d, i).0 != gone
      {
        assert d.firstElement + i < a - 1 + 1;
        DivModUnique(a - 1, ChunkSize, a / ChunkSize - 1, ChunkSize - 1);
        assert (d.firstElement + i) / ChunkSize <= (a - 1) / ChunkSize;
      }
      assert d.firstChunk != gone;
    }
  }

  /** pop_front as evidently intended: the start advances one slot, and
      when it leaves a chunk that still has elements after it, that chunk
      is deallocated.  When the deque becomes empty the start stays in
      its allocated chunk. */
  function PopFront<T>(d: Deque<T>): (r: Deque<T>)
    requires d.size > 0
  {
    var left := d.size - 1;
    if d.firstElement != ChunkSize - 1 then d.(firstElement := d.firstElement + 1, size := left)
    else if left != 0 then
      d.(live := d.live - {d.firstChunk}, firstChunk := d.firstChunk + 1, firstElement := 0, size := left)
    else d.(size := 0)
  }

  lemma PopFrontRemovesFirst<T>(d: Deque<T>)
    requires Valid(d) && d.size > 0
    ensures Valid(PopFront(d))
    ensures Elements(PopFront(d)) == Elements(d)[1..]
  {
    var r := PopFront(d);
    assert d.started;
    forall i | 0 <= i < r.size
      ensures SlotOf(r, i) == SlotOf(d, i + 1)
    {
      if d.firstElement == ChunkSize - 1 {
        var a := d.firstElement + i + 1;
        DivModUnique(a, ChunkSize, i / ChunkSize + 1, i % ChunkSize);
      }
    }
    if d.firstElement == ChunkSize - 1 && r.size != 0 {
      assert SlotOf(d, 1) == (d.firstChunk + 1, 0);
      forall i | 0 <= i < r.size
        ensures SlotOf(r, i).0 != d.firstChunk
      {
      }
    } else if d.firstElement != ChunkSize - 1 {
      assert SlotOf(d, 0).0 == d.firstChunk;
    }
  }

  /** pop_front as written: when the last element sat at offset 15 the
      start moves on to the next chunk even though nothing is left, and
      that chunk need not be allocated. */
  function PopFrontAsWritten<T>(d: Deque<T>): (r: Deque<T>)
    requires d.size > 0
  {
    var left := d.size - 1;
    if d.firstElement != ChunkSize - 1 then d.(firstElement := d.firstElement + 1, size := left)
    else
      var freed := if left != 0 then d.live - {d.firstChunk} else d.live;
      d.(live := freed, firstChunk := d.firstChunk + 1, firstElement := 0, size := left)
  }

  /** The two differ only when the deque becomes empty from offset 15. */
  lemma PopFrontAsWrittenAgreesElsewhere<T>(d: Deque<T>)
    requires d.size > 0 && !(d.size == 1 && d.firstElement == ChunkSize - 1)
    ensures PopFrontAsWritten(d) == PopFront(d)
  {
  }

  /** push_back, push_front, push_front, pop_back, pop_back, pop_front,
      push_front and pop_front leave the deque empty with its start in
      chunk 1, which the second pop_back deallocated: the next push_back
      writes into a chunk that is not allocated.  The intended pop_front
      keeps the start in an allocated chunk. */
  lemma PopFrontAsWrittenLeavesDanglingStart()
    ensures var d1 := PushBack(Empty<int>(), 1);
            var d2 := PushFront(d1, 2);
            var d3 := PushFront(d2, 3);
            var d4 := PopBack(d3);
            var d5 := PopBack(d4);
            var d6 := PopFrontAsWritten(d5);
            var d7 := PushFront(d6, 4);
            var d8 := PopFrontAsWritten(d7);
            && d8.size == 0 && d8.live == {0}
            && BackSlot(d8) == (1, 0) && BackSlot(d8).0 !in d8.live
            && !Valid(d8)
    ensures var d1 := PushBack(Empty<int>(), 1);
            var d2 := PushFront(d1, 2);
            var d3 := PushFront(d2, 3);
            var d4 := PopBack(d3);
            var d5 := PopBack(d4);
            var d6 := PopFront(d5);
            var d7 := PushFront(d6, 4);
            var d8 := PopFront(d7);
            && d8.size == 0 && BackSlot(d8).0 in d8.live
  {
    var d1 := PushBack(Empty<int>(), 1);
    assert d1.firstChunk == 1 && d1.firstElement == 0 && d1.live == {1} && d1.size == 1;
    var d2 := PushFront(d1, 2);
    assert d2.firstChunk == 0 && d2.firstElement == 15 && d2.live == {0, 1} && d2.size == 2;
    var d3 := PushFront(d2, 3);
    assert d3.firstChunk == 0 && d3.firstElement == 14 && d3.live == {0, 1} && d3.size == 3;
    var d4 := PopBack(d3);
    assert d4.live == {0, 1} && d4.size == 2;
    var d5 := PopBack(d4);
    assert d5.live == {0} && d5.size == 1;
    var d6 := PopFrontAsWritten(d5);
    assert d6.firstChunk == 0 && d6.firstElement == 15 && d6.size == 0;
    var d7 := PushFront(d6, 4);
    assert d7.firstChunk == 0 && d7.firstElement == 15 && d7.size == 1;
    var d8 := PopFrontAsWritten(d7);
    assert d8.firstChunk == 1 && d8.firstElement == 0 && d8.live == {0};
    var e8 := PopFront(PushFront(PopFront(d5), 4));
    assert e8.firstChunk == 0 && e8.live == {0};
  }

  // ---------------------------------------------------------------------
  // Insert and erase by adjacent swaps

  /** std::swap((*this)[i], (*this)[j]). */
  function Exchange<T>(d: Deque<T>, i: nat, j: nat): (r: Deque<T>)
    requires Valid(d) && i < d.size && j < d.size
    ensures Valid(r)
    ensures Elements(r) == Elements(d)[i := Elements(d)[j]][j := Elements(d)[i]]
  {
    var a, b := SlotOf(d, i), SlotOf(d, j);
    var r := d.(cells := d.cells[a := d.cells[b]][b := d.cells[a]]);
    assert forall k :: 0 <= k < d.size ==> SlotOf(r, k) == SlotOf(d, k);
    forall k | 0 <= k < d.size && k != i && k != j
      ensures SlotOf(d, k) != a && SlotOf(d, k) != b
    {
      SlotInjective(d, k, i);
      SlotInjective(d, k, j);
    }
    r
  }

  /** insert(iter, x): push_back, then swap the new last element down to
      position `at`, the iterator's distance from begin(). */
  method Insert<T>(d: Deque<T>, at: nat, x: T) returns (r: Deque<T>)
    requires Valid(d) && at <= d.size
    ensures Valid(r) && r.size == d.size + 1
    ensures Elements(r) == Elements(d)[..at] + [x] + Elements(d)[at..]
  {
    var e := Elements(d);
    PushBackAppends(d, x);
    r := PushBack(d, x);
    var i := r.size - 1;
    assert e[..i] + [x] + e[i..] == e + [x];
    while i > at
      invariant at <= i < r.size == d.size + 1 && Valid(r)
      invariant Elements(r) == e[..i] + [x] + e[i..]
    {
      SwapDown(e, x, i);
      r := Exchange(r, i, i - 1);
      i := i - 1;
    }
  }

  /** Exchanging x with its left neighbour moves it one place down. */
  lemma SwapDown<T>(e: seq<T>, x: T, i: nat)
    requires 0 < i <= |e|
    ensures var s := e[..i] + [x] + e[i..];
            s[i := s[i - 1]][i - 1 := s[i]] == e[..i - 1] + [x] + e[i - 1..]
  {
    var s := e[..i] + [x] + e[i..];
    var t := e[..i - 1] + [x] + e[i - 1..];
    assert |s[i := s[i - 1]][i - 1 := s[i]]| == |t|;
    forall k | 0 <= k < |t|
      ensures s[i := s[i - 1]][i - 1 := s[i]][k] == t[k]
    {
      if k < i - 1 {
        assert s[k] == e[k] == t[k];
      } else if k > i {
        assert s[k] == e[k - 1] == t[k];
      }
    }
  }

  /** Exchanging e[at], now at position i, with its right neighbour moves
      it one place up. */
  lemma SwapUp<T>(e: seq<T>, at: nat, i: nat)
    requires at <= i && i + 1 < |e|
    ensures var s := e[..at] + e[at + 1..i + 1] + [e[at]] + e[i + 1..];
            s[i := s[i + 1]][i + 1 := s[i]] == e[..at] + e[at + 1..i + 2] + [e[at]] + e[i + 2..]
  {
    var s := e[..at] + e[at + 1..i + 1] + [e[at]] + e[i + 1..];
    var t := e[..at] + e[at + 1..i + 2] + [e[at]] + e[i + 2..];
    assert |s| == |t| == |e|;
    forall k | 0 <= k < |t|
      ensures s[i := s[i + 1]][i + 1 := s[i]][k] == t[k]
    {
      if k < at {
        assert s[k] == e[k] == t[k];
      } else if k < i {
        assert s[k] == e[k + 1] == t[k];
      } else if k == i {
        assert s[i + 1] == e[i + 1] == t[i];
      } else if k == i + 1 {
        assert s[i] == e[at] == t[i + 1];
      } else {
        assert s[k] == e[k] == t[k];
      }
    }
  }

  /** erase(iter): swap the element at position `at` up to the end, then
      pop_back. */
  method Erase<T>(d: Deque<T>, at: nat) returns (r: Deque<T>)
    requires Valid(d) && at < d.size
    ensures Valid(r) && r.size == d.size - 1
    ensures Elements(r) == Elements(d)[..at] + Elements(d)[at + 1..]
  {
    var e := Elements(d);
    r := d;
    var i := at;
    while i < r.size - 1
      invariant at <= i < r.size == d.size && Valid(r)
      invariant Elements(r) == e[..at] + e[at + 1..i + 1] + [e[at]] + e[i + 1..]
    {
      SwapUp(e, at, i);
      r := Exchange(r, i, i + 1);
      i := i + 1;
    }
    assert Elements(r) == e[..at] + e[at + 1..] + [e[at]];
    PopBackRemovesLast(r);
    r := PopBack(r);
    assert Elements(r) == e[..at] + e[at + 1..];
  }

  // ---------------------------------------------------------------------
  // Iterators

  /** An iterator: a logical index plus the start position copied from the
      deque when it was made. */
  datatype Iterator = Iterator(number: nat, firstChunk: int, firstElement: nat)

  function IteratorAt<T>(d: Deque<T>, i: nat): (it: Iterator)
    ensures it.number == i
  {
    Iterator(i, d.firstChunk, d.firstElement)
  }

  function Begin<T>(d: Deque<T>): Iterator {
    IteratorAt(d, 0)
  }

  function End<T>(d: Deque<T>): Iterator {
    IteratorAt(d, d.size)
  }

  function ConIndex(it: Iterator): Slot {
    (it.firstChunk + (it.number + it.firstElement) / ChunkSize, (it.firstElement + it.number) % ChunkSize)
  }

  /** Dereferencing an iterator made from the deque reads element i, the
      same cell as operator[](i). */
  lemma DerefIsIndex<T>(d: Deque<T>, i: nat)
    requires Valid(d) && i < d.size
    ensures ConIndex(IteratorAt(d, i)) == SlotOf(d, i)
    ensures d.cells[ConIndex(IteratorAt(d, i))] == Elements(d)[i]
  {
  }

  /** it + n and it - n move the index with size_t wrap-around. */
  function Advance(it: Iterator, n: nat): Iterator {
    it.(number := (it.number + n) % Word)
  }

  function Retreat(it: Iterator, n: nat): Iterator {
    it.(number := (it.number - n) % Word)
  }

  /** it1 - it2: the index difference, as a size_t. */
  function Distance(a: Iterator, b: Iterator): nat {
    (a.number - b.number) % Word
  }

  predicate Before(a: Iterator, b: Iterator) {
    a.number < b.number
  }

  /** (it + n) - n == it for every index and step a size_t can hold. */
  lemma AdvanceRetreat(it: Iterator, n: nat)
    requires it.number < Word && n < Word
    ensures Retreat(Advance(it, n), n) == it
    ensures Distance(Advance(it, n), it) == n || it.number + n >= Word
  {
    var x := it.number;
    if x + n < Word {
      DivModUnique(x + n, Word, 0, x + n);
      DivModUnique(x, Word, 0, x);
      DivModUnique(n, Word, 0, n);
    } else {
      DivModUnique(x + n, Word, 1, x + n - Word);
      DivModUnique(x - Word, Word, -1, x);
    }
  }

  /** Distance between iterators of one deque is the index difference
      when the first is not before the second; comparisons are by index. */
  lemma DistanceOfOrdered<T>(d: Deque<T>, i: nat, j: nat)
    requires j <= i < Word
    ensures Distance(IteratorAt(d, i), IteratorAt(d, j)) == i - j
    ensures !Before(IteratorAt(d, i), IteratorAt(d, j))
    ensures Before(IteratorAt(d, j), IteratorAt(d, i)) <==> j < i
  {
    DivModUnique(i - j, Word, 0, i - j);
  }
}
