/** The sentinel doubly linked list of List/list.hpp.  Nodes are numbered;
    node 0 is the sentinel `init_`, which carries no element.  The `next`
    and `previous` pointers are sequences indexed by node number, the
    elements a map from node to value, and `nextId` is the number the
    allocator hands out next (numbers are never reused).

    The list's contents are read off the links: `order` is the sequence of
    nodes met walking `next` from the sentinel, and Valid(l, order) says
    the links of l spell out exactly that walk, in both directions. */
module LinkedLists {
  import opened Wrappers

  datatype List<T> = List(next: seq<nat>, previous: seq<nat>, elem: map<nat, T>,
                          size: nat, nextId: nat)

  /** Every node allocated so far has both pointers, and every pointer
      points at an allocated node. */
  predicate Closed<T>(l: List<T>) {
    && |l.next| == |l.previous| == l.nextId >= 1
    && (forall n :: 0 <= n < |l.next| ==> l.next[n] < l.nextId)
    && (forall n :: 0 <= n < |l.previous| ==> l.previous[n] < l.nextId)
  }

  /** The sentinel, then the nodes in order, then the sentinel again. */
  function Ring(order: seq<nat>): seq<nat> {
    [0] + order + [0]
  }

  /** Walking `next` from the sentinel visits `order` and returns to the
      sentinel; walking `previous` retraces it; each node of `order` is a
      distinct allocated element node and `size_` counts them. */
  predicate Valid<T>(l: List<T>, order: seq<nat>) {
    && Closed(l)
    && 0 !in l.elem
    && l.size == |order|
    && (forall i :: 0 <= i < |order| ==> 0 < order[i] < l.nextId && order[i] in l.elem)
    && (forall i, j :: 0 <= i < j < |order| ==> order[i] != order[j])
    && (forall i :: 0 <= i <= |order| ==> l.next[Ring(order)[i]] == Ring(order)[i + 1])
    && (forall i :: 0 <= i <= |order| ==> l.previous[Ring(order)[i + 1]] == Ring(order)[i])
  }

  /** The elements, front to back. */
  function Elements<T>(l: List<T>, order: seq<nat>): (r: seq<T>)
    requires forall i :: 0 <= i < |order| ==> order[i] in l.elem
    ensures |r| == |order|
  {
    seq(|order|, i requires 0 <= i < |order| => l.elem[order[i]])
  }

  /** The link invariant every bundle keeps: next of previous, and previous
      of next, lead back to the node, for the sentinel and every node. */
  lemma LinksConsistent<T>(l: List<T>, order: seq<nat>, n: nat)
    requires Valid(l, order)
    requires n == 0 || n in order
    ensures l.previous[l.next[n]] == n && l.next[l.previous[n]] == n
  {
    var ring := Ring(order);
    var k := 0;
    if n != 0 {
      var j :| 0 <= j < |order| && order[j] == n;
      k := j + 1;
      assert ring[k] == n;
    }
    assert l.next[ring[k]] == ring[k + 1];
    assert l.previous[ring[k + 1]] == ring[k];
    if k == 0 {
      assert l.previous[ring[0]] == ring[|order|] by {
        assert ring[|order| + 1] == 0;
      }
      assert l.next[ring[|order|]] == ring[|order| + 1];
    } else {
      assert l.previous[ring[k]] == ring[k - 1];
      assert l.next[ring[k - 1]] == ring[k];
    }
  }

  // ---------------------------------------------------------------------
  // Private helpers

  /** bundle(first, last): first->next = last, last->previous = first. */
  function Bundle<T>(l: List<T>, first: nat, last: nat): (r: List<T>)
    requires first < |l.next| && last < |l.previous|
    ensures r.next == l.next[first := last] && r.previous == l.previous[last := first]
    ensures r.elem == l.elem && r.size == l.size && r.nextId == l.nextId
  {
    l.(next := l.next[first := last], previous := l.previous[last := first])
  }

  /** insert_node(node, first, last): link node between first and last. */
  function InsertNode<T>(l: List<T>, node: nat, first: nat, last: nat): (r: List<T>)
    requires first < |l.next| && last < |l.previous| && node < |l.next| && node < |l.previous|
    ensures r.next == l.next[first := node][node := last]
    ensures r.previous == l.previous[node := first][last := node]
    ensures r.elem == l.elem && r.size == l.size && r.nextId == l.nextId
  {
    Bundle(Bundle(l, first, node), node, last)
  }

  /** insert(first, last, x): a new node holding x goes between first and
      last, and size_ grows by one. */
  function Insert<T>(l: List<T>, first: nat, last: nat, x: T): (r: List<T>)
    requires Closed(l) && first < l.nextId && last < l.nextId
    ensures Closed(r)
    ensures r.elem == l.elem[l.nextId := x] && r.size == l.size + 1 && r.nextId == l.nextId + 1
    ensures r.next == (l.next + [last])[first := l.nextId]
    ensures r.previous == (l.previous + [first])[last := l.nextId]
  {
    var id := l.nextId;
    var created := l.(next := l.next + [0], previous := l.previous + [0], elem := l.elem[id := x]);
    var r := InsertNode(created, id, first, last);
    assert r.next == (l.next + [last])[first := id];
    r.(size := l.size + 1, nextId := id + 1)
  }

  /** erase(node): nothing on an empty list; otherwise the neighbours are
      linked to each other, the node is destroyed and size_ shrinks. */
  function Erase<T>(l: List<T>, node: nat): (r: List<T>)
    requires Closed(l) && node < l.nextId
    ensures Closed(r)
    ensures l.size == 0 ==> r == l
    ensures l.size > 0 ==>
              && r.next == l.next[l.previous[node] := l.next[node]]
              && r.previous == l.previous[l.next[node] := l.previous[node]]
              && r.elem == l.elem - {node} && r.size == l.size - 1 && r.nextId == l.nextId
  {
    if l.size == 0 then l
    else
      var linked := Bundle(l, l.previous[node], l.next[node]);
      linked.(elem := l.elem - {node}, size := l.size - 1)
  }

  // ---------------------------------------------------------------------
  // Public operations

  /** List(): the sentinel linked to itself, size 0. */
  function Empty<T>(): (r: List<T>)
    ensures Valid(r, []) && r.next[0] == 0 && r.previous[0] == 0 && r.size == 0
  {
    List([0], [0], map[], 0, 1)
  }

  function PushBack<T>(l: List<T>, x: T): (r: List<T>)
    requires Closed(l)
  {
    Insert(l, l.previous[0], 0, x)
  }

  function PushFront<T>(l: List<T>, x: T): (r: List<T>)
    requires Closed(l)
  {
    Insert(l, 0, l.next[0], x)
  }

  function PopBack<T>(l: List<T>): (r: List<T>)
    requires Closed(l)
  {
    Erase(l, l.previous[0])
  }

  function PopFront<T>(l: List<T>): (r: List<T>)
    requires Closed(l)
  {
    Erase(l, l.next[0])
  }

  /** front(): the element of the sentinel's successor.  On an empty list
      the successor is the sentinel itself, which holds no element. */
  function Front<T>(l: List<T>): (r: Option<T>)
    requires Closed(l)
  {
    if l.next[0] in l.elem then Some(l.elem[l.next[0]]) else None
  }

  function Back<T>(l: List<T>): (r: Option<T>)
    requires Closed(l)
  {
    if l.previous[0] in l.elem then Some(l.elem[l.previous[0]]) else None
  }

  predicate IsEmpty<T>(l: List<T>) {
    l.size == 0
  }

  // ---------------------------------------------------------------------
  // Push and pop against the element sequence

  lemma PushBackAppends<T>(l: List<T>, order: seq<nat>, x: T)
    requires Valid(l, order)
    ensures Valid(PushBack(l, x), order + [l.nextId])
    ensures Elements(PushBack(l, x), order + [l.nextId]) == Elements(l, order) + [x]
    ensures PushBack(l, x).size == l.size + 1
  {
    assert l.nextId !in order;
    PushBackLinks(l, order, x);
  }

  /** The links after push_back spell out order + [new node]. */
  lemma PushBackLinks<T>(l: List<T>, order: seq<nat>, x: T)
    requires Valid(l, order)
    ensures var r, ring' := PushBack(l, x), Ring(order + [l.nextId]);
            && (forall i :: 0 <= i <= |order| + 1 ==> r.next[ring'[i]] == ring'[i + 1])
            && (forall i :: 0 <= i <= |order| + 1 ==> r.previous[ring'[i + 1]] == ring'[i])
  {
    var r := PushBack(l, x);
    var id := l.nextId;
    var o := order + [id];
    var ring, ring' := Ring(order), Ring(o);
    assert id !in order;
    assert forall i :: 0 <= i <= |order| ==> ring'[i] == ring[i];
    assert ring'[|order| + 1] == id && ring'[|order| + 2] == 0;
    assert l.previous[0] == ring[|order|] by {
      assert l.previous[ring[|order| + 1]] == ring[|order|];
    }
    forall i | 0 <= i <= |o|
      ensures r.next[ring'[i]] == ring'[i + 1]
    {
      if i < |order| {
        assert ring'[i] != ring[|order|] by {
          if i > 0 { assert ring'[i] == order[i - 1]; }
        }
      }
    }
    forall i | 0 <= i <= |o|
      ensures r.previous[ring'[i + 1]] == ring'[i]
    {
      if i < |order| {
        assert ring'[i + 1] == order[i];
      }
    }
  }

  lemma PushFrontPrepends<T>(l: List<T>, order: seq<nat>, x: T)
    requires Valid(l, order)
    ensures Valid(PushFront(l, x), [l.nextId] + order)
    ensures Elements(PushFront(l, x), [l.nextId] + order) == [x] + Elements(l, order)
    ensures PushFront(l, x).size == l.size + 1
  {
    assert l.nextId !in order;
    PushFrontNext(l, order, x);
    PushFrontPrevious(l, order, x);
  }

  /** After push_front, `next` walks the new node, then order. */
  lemma PushFrontNext<T>(l: List<T>, order: seq<nat>, x: T)
    requires Valid(l, order)
    ensures var r, ring' := PushFront(l, x), Ring([l.nextId] + order);
            forall i :: 0 <= i <= |order| + 1 ==> r.next[ring'[i]] == ring'[i + 1]
  {
    var r := PushFront(l, x);
    var id := l.nextId;
    var o := [id] + order;
    var ring, ring' := Ring(order), Ring(o);
    assert id !in order;
    assert forall i :: 1 <= i <= |order| + 1 ==> ring'[i + 1] == ring[i];
    assert ring'[1] == id && ring'[0] == 0;
    assert l.next[0] == ring[1] by {
      assert l.next[ring[0]] == ring[1];
    }
    forall i | 0 <= i <= |o|
      ensures r.next[ring'[i]] == ring'[i + 1]
    {
      if i >= 2 {
        assert ring'[i] == ring[i - 1] == order[i - 2] && ring'[i + 1] == ring[i];
        assert l.next[ring[i - 1]] == ring[i];
      }
    }
  }

  /** After push_front, `previous` retraces the same walk. */
  lemma PushFrontPrevious<T>(l: List<T>, order: seq<nat>, x: T)
    requires Valid(l, order)
    ensures var r, ring' := PushFront(l, x), Ring([l.nextId] + order);
            forall i :: 0 <= i <= |order| + 1 ==> r.previous[ring'[i + 1]] == ring'[i]
  {
    var r := PushFront(l, x);
    var id := l.nextId;
    var o := [id] + order;
    var ring, ring' := Ring(order), Ring(o);
    assert id !in order;
    assert forall i :: 1 <= i <= |order| + 1 ==> ring'[i + 1] == ring[i];
    assert ring'[1] == id && ring'[0] == 0;
    assert l.next[0] == ring[1] by {
      assert l.next[ring[0]] == ring[1];
    }
    forall i | 0 <= i <= |o|
      ensures r.previous[ring'[i + 1]] == ring'[i]
    {
      if i >= 2 {
        assert ring'[i + 1] == ring[i] && ring'[i] == ring[i - 1];
        assert l.previous[ring[i]] == ring[i - 1];
        if i <= |order| {
          assert ring[i] == order[i - 1] && ring[1] == order[0];
        }
      }
    }
  }

  lemma PopBackRemovesLast<T>(l: List<T>, order: seq<nat>)
    requires Valid(l, order)
    ensures |order| == 0 ==> PopBack(l) == l
    ensures |order| > 0 ==>
              && Valid(PopBack(l), order[..|order| - 1])
              && Elements(PopBack(l), order[..|order| - 1]) == Elements(l, order)[..|order| - 1]
              && PopBack(l).size == l.size - 1
  {
    if |order| > 0 {
      var r := PopBack(l);
      var o := order[..|order| - 1];
      var ring, ring' := Ring(order), Ring(o);
      var node := order[|order| - 1];
      assert l.previous[0] == node by {
        assert l.previous[ring[|order| + 1]] == ring[|order|];
      }
      assert l.next[node] == 0 by {
        assert l.next[ring[|order|]] == ring[|order| + 1];
      }
      assert l.previous[node] == ring[|order| - 1] by {
        assert l.previous[ring[|order|]] == ring[|order| - 1];
      }
      assert forall i :: 0 <= i <= |o| ==> ring'[i] == ring[i];
      assert ring'[|o| + 1] == 0;
      forall i | 0 <= i < |o|
        ensures o[i] in r.elem
      {
        assert o[i] != node;
      }
      forall i | 0 <= i <= |o|
        ensures r.next[ring'[i]] == ring'[i + 1]
      {
        if i < |o| {
          assert ring'[i] != ring[|order| - 1] by {
            if i > 0 { assert ring'[i] == order[i - 1]; }
          }
        }
      }
      forall i | 0 <= i <= |o|
        ensures r.previous[ring'[i + 1]] == ring'[i]
      {
        if i < |o| {
          assert ring'[i + 1] == order[i];
        }
      }
    }
  }

  lemma PopFrontRemovesFirst<T>(l: List<T>, order: seq<nat>)
    requires Valid(l, order)
    ensures |order| == 0 ==> PopFront(l) == l
    ensures |order| > 0 ==>
              && Valid(PopFront(l), order[1..])
              && Elements(PopFront(l), order[1..]) == Elements(l, order)[1..]
              && PopFront(l).size == l.size - 1
  {
    if |order| > 0 {
      var r := PopFront(l);
      var o := order[1..];
      var ring, ring' := Ring(order), Ring(o);
      var node := order[0];
      assert l.next[0] == node by {
        assert l.next[ring[0]] == ring[1];
      }
      assert l.previous[node] == 0 by {
        assert l.previous[ring[1]] == ring[0];
      }
      assert l.next[node] == ring[2] by {
        assert l.next[ring[1]] == ring[2];
      }
      assert forall i :: 1 <= i <= |o| + 1 ==> ring'[i] == ring[i + 1];
      assert ring'[0] == 0;
      forall i | 0 <= i < |o|
        ensures o[i] in r.elem
      {
        assert o[i] == order[i + 1];
      }
      forall i | 0 <= i <= |o|
        ensures r.next[ring'[i]] == ring'[i + 1]
      {
        if i > 0 {
          assert ring'[i] == order[i];
        }
      }
      forall i | 0 <= i <= |o|
        ensures r.previous[ring'[i + 1]] == ring'[i]
      {
        if i + 1 <= |o| {
          assert ring'[i + 1] == order[i + 1];
          assert ring'[i + 1] != ring[2] || i == 0;
        }
      }
    }
  }

  /** front() and back() are the first and last elements; on an empty list
      there is none. */
  lemma FrontBackAreEnds<T>(l: List<T>, order: seq<nat>)
    requires Valid(l, order)
    ensures |order| == 0 ==> Front(l).None? && Back(l).None?
    ensures |order| > 0 ==> Front(l) == Some(Elements(l, order)[0])
    ensures |order| > 0 ==> Back(l) == Some(Elements(l, order)[|order| - 1])
  {
    var ring := Ring(order);
    assert l.next[ring[0]] == ring[1];
    assert l.previous[ring[|order| + 1]] == ring[|order|];
  }

  // ---------------------------------------------------------------------
  // Walking the links, and the constructors built on push_back

  /** The elements met following `next` from `node` for at most k steps,
      stopping at the sentinel. */
  function Walk<T>(l: List<T>, node: nat, k: nat): (r: seq<T>)
    ensures |r| <= k
    decreases k
  {
    if k == 0 || node !in l.elem || node >= |l.next| then []
    else [l.elem[node]] + Walk(l, l.next[node], k - 1)
  }

  lemma {:induction false} WalkSuffix<T>(l: List<T>, order: seq<nat>, i: nat)
    requires Valid(l, order) && i <= |order|
    ensures Walk(l, Ring(order)[i + 1], |order| - i) == Elements(l, order)[i..]
    decreases |order| - i
  {
    if i < |order| {
      var ring := Ring(order);
      assert ring[i + 1] == order[i];
      assert l.next[ring[i + 1]] == ring[i + 2];
      WalkSuffix(l, order, i + 1);
    }
  }

  /** Following the links for size_ steps from the sentinel's successor
      reads the elements in order. */
  lemma WalkReadsElements<T>(l: List<T>, order: seq<nat>)
    requires Valid(l, order)
    ensures Walk(l, l.next[0], l.size) == Elements(l, order)
  {
    assert l.next[Ring(order)[0]] == Ring(order)[1];
    WalkSuffix(l, order, 0);
  }

  /** The node numbers a fresh list gets for its first n push_backs. */
  function Ids(n: nat): (r: seq<nat>)
    ensures |r| == n && forall i :: 0 <= i < n ==> r[i] == i + 1
  {
    seq(n, i requires 0 <= i < n => i + 1)
  }

  /** push_back of every element of xs, in order, onto a fresh list: the
      initializer-list constructor, and the copy constructor fed from the
      walk of the other list. */
  function FromSeq<T>(xs: seq<T>): (r: List<T>)
    decreases |xs|
  {
    if |xs| == 0 then Empty() else PushBack(FromSeq(xs[..|xs| - 1]), xs[|xs| - 1])
  }

  lemma {:induction false} FromSeqHolds<T>(xs: seq<T>)
    ensures Valid(FromSeq(xs), Ids(|xs|)) && FromSeq(xs).nextId == |xs| + 1
    ensures Elements(FromSeq(xs), Ids(|xs|)) == xs
    decreases |xs|
  {
    if |xs| > 0 {
      FromSeqHolds(xs[..|xs| - 1]);
      FromSeqStep(xs);
    } else {
      assert Ids(0) == [] && FromSeq(xs) == Empty() && xs == [];
    }
  }

  /** One more push_back extends the list read off nodes 1..n by node n+1. */
  lemma FromSeqStep<T>(xs: seq<T>)
    requires |xs| > 0
    requires var l := FromSeq(xs[..|xs| - 1]);
             Valid(l, Ids(|xs| - 1)) && l.nextId == |xs|
             && Elements(l, Ids(|xs| - 1)) == xs[..|xs| - 1]
    ensures Valid(FromSeq(xs), Ids(|xs|)) && FromSeq(xs).nextId == |xs| + 1
    ensures Elements(FromSeq(xs), Ids(|xs|)) == xs
  {
    var init, last := xs[..|xs| - 1], xs[|xs| - 1];
    var l, o := FromSeq(init), Ids(|init|);
    assert FromSeq(xs) == PushBack(l, last);
    IdsSnoc(|init|);
    SnocLast(xs);
    PushBackAppends(l, o, last);
  }

  lemma IdsSnoc(n: nat)
    ensures Ids(n) + [n + 1] == Ids(n + 1)
  {
  }

  lemma SnocLast<T>(xs: seq<T>)
    requires |xs| > 0
    ensures xs[..|xs| - 1] + [xs[|xs| - 1]] == xs
  {
  }

  /** List(n, x): n push_backs of x. */
  function Filled<T>(n: nat, x: T): (r: List<T>)
  {
    FromSeq(seq(n, _ => x))
  }

  lemma FilledHoldsCopies<T>(n: nat, x: T)
    ensures Valid(Filled(n, x), Ids(n)) && Filled(n, x).size == n
    ensures Elements(Filled(n, x), Ids(n)) == seq(n, _ => x)
  {
    FromSeqHolds(seq(n, _ => x));
  }

  /** List(const List&): push_back every element met walking the other
      list. */
  function Copy<T>(other: List<T>): (r: List<T>)
    requires Closed(other)
  {
    FromSeq(Walk(other, other.next[0], other.size))
  }

  /** A copy holds the same elements in the same order. */
  lemma CopyPreservesElements<T>(other: List<T>, order: seq<nat>)
    requires Valid(other, order)
    ensures Valid(Copy(other), Ids(|order|))
    ensures Elements(Copy(other), Ids(|order|)) == Elements(other, order)
    ensures Copy(other).size == other.size
  {
    WalkReadsElements(other, order);
    FromSeqHolds(Elements(other, order));
  }

  /** The half of swap that hangs a list's nodes off a sentinel: a
      non-empty chain goes between its old last and first node, an empty
      one leaves the sentinel linked to itself. */
  function Rehang<T>(l: List<T>): (r: List<T>)
    requires Closed(l)
  {
    if l.size != 0 then InsertNode(l, 0, l.previous[0], l.next[0]) else Bundle(l, 0, 0)
  }

  lemma RehangKeeps<T>(l: List<T>, order: seq<nat>)
    requires Valid(l, order)
    ensures Valid(Rehang(l), order) && Elements(Rehang(l), order) == Elements(l, order)
  {
    var ring := Ring(order);
    assert l.next[ring[0]] == ring[1];
    assert l.previous[ring[|order| + 1]] == ring[|order|];
    if l.size != 0 {
      LinksConsistent(l, order, 0);
      assert Rehang(l).next == l.next;
      assert Rehang(l).previous == l.previous;
    } else {
      assert Rehang(l).next == l.next;
      assert Rehang(l).previous == l.previous;
    }
  }

  /** swap(first, second): each list's sentinel takes over the other's
      chain of nodes, and the sizes are exchanged. */
  function Swap<T>(first: List<T>, second: List<T>): (r: (List<T>, List<T>))
    requires Closed(first) && Closed(second)
  {
    (Rehang(second), Rehang(first))
  }

  lemma SwapExchanges<T>(first: List<T>, o1: seq<nat>, second: List<T>, o2: seq<nat>)
    requires Valid(first, o1) && Valid(second, o2)
    ensures Valid(Swap(first, second).0, o2) && Valid(Swap(first, second).1, o1)
    ensures Elements(Swap(first, second).0, o2) == Elements(second, o2)
    ensures Elements(Swap(first, second).1, o1) == Elements(first, o1)
    ensures Swap(first, second).0.size == second.size && Swap(first, second).1.size == first.size
  {
    RehangKeeps(first, o1);
    RehangKeeps(second, o2);
  }
}
