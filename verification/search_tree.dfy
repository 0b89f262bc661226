/** The binary search tree of BinarySearchTree/BST.cpp, over integer
    elements.  A tree is the inductive structure the shared `left`/`right`
    pointers spell out from `top_`.  As long as removal relinks correctly
    the weak `parent` pointers are implied by that structure; the removal
    as written does not, and `Linked` at the end of the module tracks them.
    Smaller elements go left and the others right, so an equal element is
    always found to the right. */
module SearchTrees {
  import opened Wrappers

  datatype Tree = Leaf | Node(left: Tree, elem: int, right: Tree)

  function Elems(t: Tree): multiset<int> {
    match t
    case Leaf => multiset{}
    case Node(l, e, r) => Elems(l) + multiset{e} + Elems(r)
  }

  /** Every element of a left subtree is smaller than its node, every
      element of a right subtree at least as large. */
  predicate Ordered(t: Tree) {
    match t
    case Leaf => true
    case Node(l, e, r) =>
      && Ordered(l) && Ordered(r)
      && (forall x :: x in Elems(l) ==> x < e)
      && (forall x :: x in Elems(r) ==> e <= x)
  }

  // ---------------------------------------------------------------------
  // Insertion

  /** insert_construct: an empty tree gets the element as its root;
      otherwise find_leaf walks left while the element is smaller than the
      node and right otherwise, and the element becomes the missing child
      where the walk stops. */
  function Insert(t: Tree, x: int): (r: Tree)
    ensures r.Node?
  {
    match t
    case Leaf => Node(Leaf, x, Leaf)
    case Node(l, e, rt) =>
      if x < e then Node(Insert(l, x), e, rt) else Node(l, e, Insert(rt, x))
  }

  /** Insertion adds exactly the element. */
  lemma {:induction false} InsertAdds(t: Tree, x: int)
    ensures Elems(Insert(t, x)) == Elems(t) + multiset{x}
  {
    match t
    case Leaf =>
    case Node(l, e, r) =>
      if x < e {
        InsertAdds(l, x);
        AddOnLeft(Elems(l), e, Elems(r), x);
      } else {
        InsertAdds(r, x);
        AddOnRight(Elems(l), e, Elems(r), x);
      }
  }

  lemma AddOnLeft(a: multiset<int>, e: int, c: multiset<int>, x: int)
    ensures (a + multiset{x}) + multiset{e} + c == (a + multiset{e} + c) + multiset{x}
  {
  }

  lemma AddOnRight(a: multiset<int>, e: int, c: multiset<int>, x: int)
    ensures a + multiset{e} + (c + multiset{x}) == (a + multiset{e} + c) + multiset{x}
  {
  }

  /** A node stays ordered when a subtree is replaced by an ordered tree
      with some of its elements, or with one more on the right side of the
      node. */
  lemma ShrinkLeft(l: Tree, l2: Tree, e: int, r: Tree)
    requires Ordered(Node(l, e, r)) && Ordered(l2) && Elems(l2) <= Elems(l)
    ensures Ordered(Node(l2, e, r))
  {
    forall y | y in Elems(l2)
      ensures y < e
    {
      assert y in Elems(l);
    }
  }

  lemma ShrinkRight(l: Tree, e: int, r: Tree, r2: Tree)
    requires Ordered(Node(l, e, r)) && Ordered(r2) && Elems(r2) <= Elems(r)
    ensures Ordered(Node(l, e, r2))
  {
    forall y | y in Elems(r2)
      ensures e <= y
    {
      assert y in Elems(r);
    }
  }

  lemma GrowLeft(l: Tree, l2: Tree, e: int, r: Tree, x: int)
    requires Ordered(Node(l, e, r)) && Ordered(l2) && Elems(l2) == Elems(l) + multiset{x} && x < e
    ensures Ordered(Node(l2, e, r))
  {
    forall y | y in Elems(l2)
      ensures y < e
    {
      assert y in Elems(l) || y == x;
    }
  }

  lemma GrowRight(l: Tree, e: int, r: Tree, r2: Tree, x: int)
    requires Ordered(Node(l, e, r)) && Ordered(r2) && Elems(r2) == Elems(r) + multiset{x} && e <= x
    ensures Ordered(Node(l, e, r2))
  {
    forall y | y in Elems(r2)
      ensures e <= y
    {
      assert y in Elems(r) || y == x;
    }
  }

  /** Insertion keeps the order. */
  lemma {:induction false} InsertKeepsOrder(t: Tree, x: int)
    requires Ordered(t)
    ensures Ordered(Insert(t, x))
  {
    match t
    case Leaf =>
    case Node(l, e, r) =>
      if x < e {
        InsertKeepsOrder(l, x);
        InsertAdds(l, x);
        GrowLeft(l, Insert(l, x), e, r, x);
      } else {
        InsertKeepsOrder(r, x);
        InsertAdds(r, x);
        GrowRight(l, e, r, Insert(r, x), x);
      }
  }

  /** The first insertion into an empty tree makes the element the root. */
  lemma InsertIntoEmpty(x: int)
    ensures Insert(Leaf, x) == Node(Leaf, x, Leaf)
  {
  }

  // ---------------------------------------------------------------------
  // Search

  /** find: the element of the first node on the search path that equals
      x, or of the node where the path ends; None for an empty tree. */
  function Find(t: Tree, x: int): (r: Option<int>)
    ensures t.Leaf? <==> r.None?
    ensures r.Some? ==> r.value in Elems(t)
  {
    match t
    case Leaf => None
    case Node(l, e, rt) =>
      var next := if x < e then l else rt;
      if next.Leaf? || x == e then Some(e) else
        var found := Find(next, x);
        assert found.value in Elems(next);
        found
  }

  /** hasElem: the node find stops at holds x. */
  predicate HasElem(t: Tree, x: int) {
    match Find(t, x)
    case None => false
    case Some(e) => e == x
  }

  /** On an ordered tree, hasElem answers membership exactly. */
  lemma {:induction false} HasElemIffMember(t: Tree, x: int)
    requires Ordered(t)
    ensures HasElem(t, x) <==> x in Elems(t)
  {
    match t
    case Leaf =>
    case Node(l, e, r) =>
      if x != e {
        if x < e {
          assert x !in Elems(r);
          HasElemIffMember(l, x);
        } else {
          assert x !in Elems(l);
          HasElemIffMember(r, x);
        }
      }
  }

  /** hasElem(x) holds after insert(x) and never on an empty tree. */
  lemma HasElemAfterInsert(t: Tree, x: int)
    requires Ordered(t)
    ensures HasElem(Insert(t, x), x)
    ensures !HasElem(Leaf, x)
  {
    InsertKeepsOrder(t, x);
    InsertAdds(t, x);
    HasElemIffMember(Insert(t, x), x);
  }

  // ---------------------------------------------------------------------
  // Minimum and maximum

  /** min(ptr): follow left children to the end.  min() on an empty tree
      dereferences a null pointer, so the tree must be non-empty. */
  function Min(t: Tree): (m: int)
    requires t.Node?
    ensures m in Elems(t)
  {
    if t.left.Leaf? then t.elem else Min(t.left)
  }

  function Max(t: Tree): (m: int)
    requires t.Node?
    ensures m in Elems(t)
  {
    if t.right.Leaf? then t.elem else Max(t.right)
  }

  /** The leftmost element is the smallest and the rightmost the largest. */
  lemma {:induction false} MinMaxAreExtremes(t: Tree)
    requires t.Node? && Ordered(t)
    ensures forall x :: x in Elems(t) ==> Min(t) <= x <= Max(t)
  {
    if t.left.Node? {
      MinMaxAreExtremes(t.left);
    }
    if t.right.Node? {
      MinMaxAreExtremes(t.right);
    }
  }

  // ---------------------------------------------------------------------
  // Removal, as evidently intended

  /** The tree without its leftmost node: that node's right subtree takes
      its place. */
  function DeleteMin(t: Tree): (r: Tree)
    requires t.Node?
  {
    if t.left.Leaf? then t.right else Node(DeleteMin(t.left), t.elem, t.right)
  }

  lemma {:induction false} DeleteMinTakesMin(t: Tree)
    requires t.Node? && Ordered(t)
    ensures Elems(DeleteMin(t)) + multiset{Min(t)} == Elems(t)
    ensures Ordered(DeleteMin(t))
  {
    if t.left.Node? {
      DeleteMinTakesMin(t.left);
      DeleteMinStep(t.left, t.elem, t.right, Min(t.left));
    }
  }

  /** The step of DeleteMin below the root: the left subtree loses its
      minimum, which is also the minimum of the whole tree. */
  lemma DeleteMinStep(l: Tree, e: int, r: Tree, m: int)
    requires l.Node? && Ordered(Node(l, e, r)) && m == Min(l)
    requires Elems(DeleteMin(l)) + multiset{m} == Elems(l) && Ordered(DeleteMin(l))
    ensures Elems(Node(DeleteMin(l), e, r)) + multiset{m} == Elems(Node(l, e, r))
    ensures Ordered(Node(DeleteMin(l), e, r))
  {
    AddOnLeft(Elems(DeleteMin(l)), e, Elems(r), m);
    ShrinkLeft(l, DeleteMin(l), e, r);
  }

  /** remove_node: a leaf is detached (or the tree emptied); a node with
      one child is replaced by that child; a node with two children takes
      the element of its right subtree's minimum, and that node is removed
      in its turn. */
  function RemoveNode(t: Tree): (r: Tree)
    requires t.Node?
  {
    if t.left.Leaf? && t.right.Leaf? then Leaf
    else if t.left.Leaf? then t.right
    else if t.right.Leaf? then t.left
    else Node(t.left, Min(t.right), DeleteMin(t.right))
  }

  lemma RemoveNodeDropsRoot(t: Tree)
    requires t.Node? && Ordered(t)
    ensures Elems(RemoveNode(t)) + multiset{t.elem} == Elems(t)
  {
    if t.left.Node? && t.right.Node? {
      DeleteMinTakesMin(t.right);
    }
  }

  lemma RemoveNodeKeepsOrder(t: Tree)
    requires t.Node? && Ordered(t)
    ensures Ordered(RemoveNode(t))
  {
    if t.left.Node? && t.right.Node? {
      DeleteMinTakesMin(t.right);
      MinMaxAreExtremes(t.right);
      var r := RemoveNode(t);
      forall x | x in Elems(r.right)
        ensures r.elem <= x
      {
        assert x in Elems(t.right);
      }
      forall x | x in Elems(r.left)
        ensures x < r.elem
      {
        assert t.elem <= Min(t.right);
      }
    }
  }

  /** remove(x): nothing when the tree is empty or x is absent; otherwise
      the node find reaches is removed. */
  function Remove(t: Tree, x: int): (r: Tree)
  {
    match t
    case Leaf => Leaf
    case Node(l, e, rt) =>
      if x == e then RemoveNode(t)
      else if x < e then Node(Remove(l, x), e, rt)
      else Node(l, e, Remove(rt, x))
  }

  /** Taking x out of one part of a union whose other part lacks x. */
  lemma MinusOnePart(a: multiset<int>, b: multiset<int>, x: int)
    requires x !in b
    ensures (a - multiset{x}) + b == (a + b) - multiset{x}
  {
    forall y
      ensures ((a - multiset{x}) + b)[y] == ((a + b) - multiset{x})[y]
    {
      if y == x {
        assert b[y] == 0;
      }
    }
  }

  lemma AddThenMinus(a: multiset<int>, x: int)
    ensures (a + multiset{x}) - multiset{x} == a
  {
    assert forall y :: ((a + multiset{x}) - multiset{x})[y] == a[y];
  }

  /** One step of removal below the root: the subtree on x's side loses
      one x, and the other side has none. */
  lemma RemoveBelow(a: multiset<int>, a': multiset<int>, b: multiset<int>, x: int)
    requires a' == a - multiset{x} && x !in b
    ensures a' + b == (a + b) - multiset{x}
  {
    MinusOnePart(a, b, x);
  }

  /** Removal takes out one copy of x when there is one. */
  lemma {:induction false} RemoveTakesOne(t: Tree, x: int)
    requires Ordered(t)
    ensures Elems(Remove(t, x)) == Elems(t) - multiset{x}
  {
    match t
    case Leaf =>
    case Node(l, e, r) =>
      if x == e {
        RemoveNodeDropsRoot(t);
        AddThenMinus(Elems(RemoveNode(t)), e);
      } else if x < e {
        RemoveTakesOne(l, x);
        RemoveLeftStep(l, e, r, x);
      } else {
        RemoveTakesOne(r, x);
        RemoveRightStep(l, e, r, x);
      }
  }

  lemma RemoveLeftStep(l: Tree, e: int, r: Tree, x: int)
    requires Ordered(Node(l, e, r)) && x < e
    requires Elems(Remove(l, x)) == Elems(l) - multiset{x}
    ensures Elems(Node(Remove(l, x), e, r)) == Elems(Node(l, e, r)) - multiset{x}
  {
    assert x !in multiset{e} + Elems(r);
    RemoveBelow(Elems(l), Elems(Remove(l, x)), multiset{e} + Elems(r), x);
  }

  lemma RemoveRightStep(l: Tree, e: int, r: Tree, x: int)
    requires Ordered(Node(l, e, r)) && e < x
    requires Elems(Remove(r, x)) == Elems(r) - multiset{x}
    ensures Elems(Node(l, e, Remove(r, x))) == Elems(Node(l, e, r)) - multiset{x}
  {
    assert x !in Elems(l) + multiset{e};
    RemoveBelow(Elems(r), Elems(Remove(r, x)), Elems(l) + multiset{e}, x);
  }

  lemma MinusOneSubset(a: multiset<int>, x: int)
    ensures a - multiset{x} <= a
  {
  }

  /** remove(x) of an absent element leaves the tree as it was. */
  lemma {:induction false} RemoveAbsent(t: Tree, x: int)
    requires Ordered(t) && x !in Elems(t)
    ensures Remove(t, x) == t
  {
    match t
    case Leaf =>
    case Node(l, e, r) =>
      if x < e {
        RemoveAbsent(l, x);
      } else {
        RemoveAbsent(r, x);
      }
  }

  /** Removal keeps the order. */
  lemma {:induction false} RemoveKeepsOrder(t: Tree, x: int)
    requires Ordered(t)
    ensures Ordered(Remove(t, x))
  {
    match t
    case Leaf =>
    case Node(l, e, r) =>
      if x == e {
        RemoveNodeKeepsOrder(t);
      } else if x < e {
        assert Ordered(l);
        RemoveTakesOne(l, x);
        RemoveKeepsOrder(l, x);
        MinusOneSubset(Elems(l), x);
        ShrinkLeft(l, Remove(l, x), e, r);
      } else {
        assert Ordered(r);
        RemoveTakesOne(r, x);
        RemoveKeepsOrder(r, x);
        MinusOneSubset(Elems(r), x);
        ShrinkRight(l, e, r, Remove(r, x));
      }
  }

  /** remove(): remove the root; nothing on an empty tree. */
  function RemoveTop(t: Tree): (r: Tree)
    ensures t.Leaf? ==> r == Leaf
  {
    if t.Leaf? then Leaf else RemoveNode(t)
  }

  lemma RemoveTopDropsRoot(t: Tree)
    requires t.Node? && Ordered(t)
    ensures Elems(RemoveTop(t)) == Elems(t) - multiset{t.elem}
    ensures Ordered(RemoveTop(t))
  {
    RemoveNodeDropsRoot(t);
    RemoveNodeKeepsOrder(t);
  }

  // ---------------------------------------------------------------------
  // Removal as written

  /** In the one-child case below the root, the code assigns the child to a
      local copy of the parent's pointer, so the parent keeps pointing at
      the node and the shape is unchanged.  The child's parent pointer does
      move, to the node's parent; this plain-tree version is exact for one
      removal from a tree whose parent pointers are all right
      (RemoveLinkedExact), and RemoveLinked follows the pointers across
      removals.  `atRoot` tells whether the node is `top_`. */
  function RemoveNodeAsWritten(t: Tree, atRoot: bool): (r: Tree)
    requires t.Node?
  {
    if t.left.Leaf? && t.right.Leaf? then Leaf
    else if t.left.Leaf? || t.right.Leaf? then
      if atRoot then (if t.left.Leaf? then t.right else t.left) else t
    else Node(t.left, Min(t.right), ReplaceMinAsWritten(t.right, t.elem))
  }

  /** The two-child case swaps the node's element into the right subtree's
      minimum node and then removes that node, which is never the root and
      has no left child: a leaf is detached, but a node with a right child
      stays where it is, now holding the swapped element. */
  function ReplaceMinAsWritten(t: Tree, e: int): (r: Tree)
    requires t.Node?
  {
    if t.left.Leaf? then (if t.right.Leaf? then Leaf else Node(Leaf, e, t.right))
    else Node(ReplaceMinAsWritten(t.left, e), t.elem, t.right)
  }

  function RemoveAsWrittenAt(t: Tree, x: int, atRoot: bool): (r: Tree)
  {
    match t
    case Leaf => Leaf
    case Node(l, e, rt) =>
      if x == e then RemoveNodeAsWritten(t, atRoot)
      else if x < e then Node(RemoveAsWrittenAt(l, x, false), e, rt)
      else Node(l, e, RemoveAsWrittenAt(rt, x, false))
  }

  function RemoveAsWritten(t: Tree, x: int): (r: Tree)
  {
    RemoveAsWrittenAt(t, x, true)
  }

  /** Counterexample: after inserting 1, 2 and 3, node 2 has one child and
      is not the root; removing 2 as written leaves it in the tree, while
      the intended removal takes it out. */
  lemma RemoveAsWrittenKeepsOneChildNode()
    ensures var t := Insert(Insert(Insert(Leaf, 1), 2), 3);
            && t == Node(Leaf, 1, Node(Leaf, 2, Node(Leaf, 3, Leaf)))
            && RemoveAsWritten(t, 2) == t
            && HasElem(RemoveAsWritten(t, 2), 2)
            && Remove(t, 2) == Node(Leaf, 1, Node(Leaf, 3, Leaf))
            && !HasElem(Remove(t, 2), 2)
  {
  }

  // ---------------------------------------------------------------------
  // Removal as written, with parent pointers

  /** The tree as remove_node sees it, with each node's weak `parent`
      pointer.  `up` counts the levels between the node's real parent and
      the node its pointer names: 0 is the real parent, which is what
      insertion sets.  Only the one-child case of remove_node moves a
      pointer, and always to an ancestor; a pointer naming a level above
      the root names a node that has been freed, and locking it gives
      null. */
  datatype Linked = Nil | Link(left: Linked, elem: int, right: Linked, up: nat)

  /** The tree the `left` and `right` pointers spell out. */
  function Shape(t: Linked): (r: Tree)
    ensures t.Link? <==> r.Node?
  {
    match t
    case Nil => Leaf
    case Link(l, e, rt, _) => Node(Shape(l), e, Shape(rt))
  }

  /** Every parent pointer names the real parent. */
  predicate Exact(t: Linked) {
    match t
    case Nil => true
    case Link(l, _, r, u) => u == 0 && Exact(l) && Exact(r)
  }

  /** insert_construct: the new node's parent pointer names the node where
      find_leaf stopped. */
  function InsertLinked(t: Linked, x: int): (r: Linked)
    ensures r.Link?
  {
    match t
    case Nil => Link(Nil, x, Nil, 0)
    case Link(l, e, rt, u) =>
      if x < e then Link(InsertLinked(l, x), e, rt, u) else Link(l, e, InsertLinked(rt, x), u)
  }

  /** Insertion builds the same shape as on the plain tree and keeps every
      parent pointer exact. */
  lemma {:induction false} InsertLinkedShape(t: Linked, x: int)
    ensures Shape(InsertLinked(t, x)) == Insert(Shape(t), x)
    ensures Exact(t) ==> Exact(InsertLinked(t, x))
  {
    match t
    case Nil =>
    case Link(l, e, rt, u) =>
      if x < e {
        InsertLinkedShape(l, x);
      } else {
        InsertLinkedShape(rt, x);
      }
  }

  /** What a removal inside a subtree does, seen from the subtree's
      parent: the subtree becomes `t`, and then nothing more happens
      (`Replaced`), or the node `k` levels above that parent is locked and
      dereferenced (`Locks`), or that node loses its right subtree
      (`DropsRight`).  `NullDeref` is a dereference of a null pointer,
      which is undefined behaviour. */
  datatype Effect =
    | Replaced(t: Linked)
    | Locks(k: nat, t: Linked)
    | DropsRight(k: nat, t: Linked)
    | NullDeref

  /** The effect of a removal below node `n`, on its left or right side,
      seen from the parent of `n`.  `n` carries the node's element as the
      removal left it. */
  function Lift(eff: Effect, n: Linked, fromLeft: bool): (lifted: Effect)
    requires n.Link?
    ensures eff.NullDeref? <==> lifted.NullDeref?
  {
    match eff
    case NullDeref => NullDeref
    case Replaced(s) => Replaced(if fromLeft then n.(left := s) else n.(right := s))
    case Locks(k, s) =>
      var m := if fromLeft then n.(left := s) else n.(right := s);
      if k == 0 then Replaced(m) else Locks(k - 1, m)
    case DropsRight(k, s) =>
      var m := if fromLeft then n.(left := s) else n.(right := s);
      if k == 0 then Replaced(m.(right := Nil)) else DropsRight(k - 1, m)
  }

  /** remove_node on a node with at most one child.  A leaf that is top_
      empties the tree; any other leaf locks its parent pointer and clears
      the parent's left pointer if that is the node and its right pointer
      otherwise, so a pointer that names a higher ancestor clears that
      ancestor's right subtree.  A one-child node that is top_ hands top_
      to the child; any other one locks its parent pointer, leaves the
      parent's pointer as it was, and gives the child its own parent
      pointer. */
  function RemoveFewLinked(t: Linked, atRoot: bool): (eff: Effect)
    requires t.Link? && (t.left.Nil? || t.right.Nil?)
    ensures atRoot ==> eff.Replaced?
  {
    if t.left.Nil? && t.right.Nil? then
      if atRoot || t.up == 0 then Replaced(Nil) else DropsRight(t.up, t)
    else
      var child := if t.left.Nil? then t.right else t.left;
      if atRoot then Replaced(child)
      else
        var moved := child.(up := t.up + 1);
        Locks(t.up, if t.left.Nil? then t.(right := moved) else t.(left := moved))
  }

  /** The second half of the two-child case: the leftmost node of the right
      subtree `s` takes the element `e` and is removed by remove_node, never
      as top_. */
  function RemoveMinLinked(s: Linked, e: int): (eff: Effect)
    requires s.Link?
  {
    if s.left.Nil? then RemoveFewLinked(s.(elem := e), false)
    else Lift(RemoveMinLinked(s.left, e), s, true)
  }

  /** remove_node with parent pointers; `atRoot` tells whether the node is
      top_. */
  function RemoveNodeLinked(t: Linked, atRoot: bool): (eff: Effect)
    requires t.Link?
  {
    if t.left.Nil? || t.right.Nil? then RemoveFewLinked(t, atRoot)
    else Lift(RemoveMinLinked(t.right, t.elem), t.(elem := Min(Shape(t.right))), false)
  }

  /** The search of remove(x) down to the node find stops at. */
  function RemoveSearchLinked(t: Linked, x: int, atRoot: bool): (eff: Effect)
  {
    match t
    case Nil => Replaced(Nil)
    case Link(l, e, r, _) =>
      if x == e then RemoveNodeLinked(t, atRoot)
      else if x < e then Lift(RemoveSearchLinked(l, x, false), t, true)
      else Lift(RemoveSearchLinked(r, x, false), t, false)
  }

  /** remove(x) as written, with parent pointers: the resulting tree, or
      None when the call dereferences the null pointer that locking a freed
      parent gives.  An effect that reaches above top_ names such a
      parent. */
  function RemoveLinked(t: Linked, x: int): (r: Option<Linked>)
  {
    match RemoveSearchLinked(t, x, true)
    case Replaced(s) => Some(s)
    case _ => None
  }

  /** On a tree whose parent pointers are all exact, such as any tree
      built by insertions alone, one removal agrees with RemoveAsWritten
      on the plain tree: the bug shows in the shape only later. */
  lemma {:induction false} RemoveLinkedExact(t: Linked, x: int)
    requires Exact(t)
    ensures RemoveLinked(t, x).Some?
    ensures Shape(RemoveLinked(t, x).value) == RemoveAsWritten(Shape(t), x)
  {
    RemoveSearchExact(t, x, true);
  }

  lemma {:induction false} RemoveSearchExact(t: Linked, x: int, atRoot: bool)
    requires Exact(t)
    ensures var eff := RemoveSearchLinked(t, x, atRoot);
            && (eff.Replaced? || (!atRoot && eff.Locks? && eff.k == 0))
            && Shape(eff.t) == RemoveAsWrittenAt(Shape(t), x, atRoot)
  {
    match t
    case Nil =>
    case Link(l, e, r, _) =>
      if x == e {
        if l.Link? && r.Link? {
          RemoveMinExact(r, e);
        }
      } else if x < e {
        RemoveSearchExact(l, x, false);
      } else {
        RemoveSearchExact(r, x, false);
      }
  }

  lemma {:induction false} RemoveMinExact(s: Linked, e: int)
    requires s.Link? && Exact(s)
    ensures var eff := RemoveMinLinked(s, e);
            && (eff.Replaced? || (eff.Locks? && eff.k == 0))
            && Shape(eff.t) == ReplaceMinAsWritten(Shape(s), e)
  {
    if s.left.Link? {
      RemoveMinExact(s.left, e);
    }
  }

  /** The carried subtree of an effect holds no element outside `m`. */
  predicate Within(eff: Effect, m: multiset<int>) {
    eff.NullDeref? || Elems(Shape(eff.t)) <= m
  }

  lemma LiftWithin(eff: Effect, n: Linked, fromLeft: bool, m: multiset<int>)
    requires n.Link? && Within(eff, m)
    ensures fromLeft ==> Within(Lift(eff, n, fromLeft), m + multiset{n.elem} + Elems(Shape(n.right)))
    ensures !fromLeft ==> Within(Lift(eff, n, fromLeft), Elems(Shape(n.left)) + multiset{n.elem} + m)
  {
    if !eff.NullDeref? {
      var lifted := Lift(eff, n, fromLeft);
      if fromLeft {
        var a := n.(left := eff.t);
        var bound := m + multiset{n.elem} + Elems(Shape(n.right));
        AttachWithin(Elems(Shape(eff.t)), m, n.elem, Elems(Shape(n.right)));
        assert Shape(a) == Node(Shape(eff.t), n.elem, Shape(n.right));
        assert lifted.t == a || lifted.t == a.(right := Nil);
        assert Elems(Shape(lifted.t)) <= bound;
      } else {
        var a := n.(right := eff.t);
        var bound := Elems(Shape(n.left)) + multiset{n.elem} + m;
        AttachWithin(Elems(Shape(eff.t)), m, n.elem, Elems(Shape(n.left)));
        assert Shape(a) == Node(Shape(n.left), n.elem, Shape(eff.t));
        assert lifted.t == a || lifted.t == a.(right := Nil);
        assert Elems(Shape(lifted.t)) <= bound;
      }
    }
  }

  /** A node over a part `a` within `m` and another part `b`, with or
      without its right side, stays within `m`, its element and `b`. */
  lemma AttachWithin(a: multiset<int>, m: multiset<int>, e: int, b: multiset<int>)
    requires a <= m
    ensures a + multiset{e} + b <= m + multiset{e} + b
    ensures a + multiset{e} + multiset{} <= m + multiset{e} + b
    ensures b + multiset{e} + a <= b + multiset{e} + m
    ensures b + multiset{e} + multiset{} <= b + multiset{e} + m
  {
  }

  lemma RemoveFewWithin(t: Linked, atRoot: bool)
    requires t.Link? && (t.left.Nil? || t.right.Nil?)
    ensures Within(RemoveFewLinked(t, atRoot), Elems(Shape(t)))
  {
    if !(t.left.Nil? && t.right.Nil?) && !atRoot {
      var child := if t.left.Nil? then t.right else t.left;
      assert Shape(child.(up := t.up + 1)) == Shape(child);
    }
  }

  lemma {:induction false} RemoveMinWithin(s: Linked, e: int)
    requires s.Link?
    ensures Within(RemoveMinLinked(s, e),
                   Elems(Shape(s)) - multiset{Min(Shape(s))} + multiset{e})
  {
    var m := Min(Shape(s));
    if s.left.Nil? {
      RemoveFewWithin(s.(elem := e), false);
      SwapRoot(Elems(Shape(s.right)), s.elem, e);
    } else {
      RemoveMinWithin(s.left, e);
      var ml := Elems(Shape(s.left)) - multiset{m} + multiset{e};
      LiftWithin(RemoveMinLinked(s.left, e), s, true, ml);
      SwapOnLeft(Elems(Shape(s.left)), s.elem, Elems(Shape(s.right)), m, e);
    }
  }

  /** A node with no left subtree whose element `d` is swapped for `e`. */
  lemma SwapRoot(r: multiset<int>, d: int, e: int)
    ensures multiset{} + multiset{e} + r == multiset{} + multiset{d} + r - multiset{d} + multiset{e}
  {
  }

  /** Swapping `m`, an element of the left part, for `e`. */
  lemma SwapOnLeft(l: multiset<int>, d: int, r: multiset<int>, m: int, e: int)
    requires m in l
    ensures l - multiset{m} + multiset{e} + multiset{d} + r == l + multiset{d} + r - multiset{m} + multiset{e}
  {
  }

  lemma RemoveNodeWithin(t: Linked, atRoot: bool)
    requires t.Link?
    ensures Within(RemoveNodeLinked(t, atRoot), Elems(Shape(t)))
  {
    if t.left.Nil? || t.right.Nil? {
      RemoveFewWithin(t, atRoot);
    } else {
      var m := Min(Shape(t.right));
      var mr := Elems(Shape(t.right)) - multiset{m} + multiset{t.elem};
      RemoveMinWithin(t.right, t.elem);
      LiftWithin(RemoveMinLinked(t.right, t.elem), t.(elem := m), false, mr);
      assert Elems(Shape(t.left)) + multiset{m} + mr == Elems(Shape(t));
    }
  }

  lemma {:induction false} RemoveSearchWithin(t: Linked, x: int, atRoot: bool)
    ensures Within(RemoveSearchLinked(t, x, atRoot), Elems(Shape(t)))
  {
    match t
    case Nil =>
    case Link(l, e, r, _) =>
      if x == e {
        RemoveNodeWithin(t, atRoot);
      } else if x < e {
        RemoveSearchWithin(l, x, false);
        LiftWithin(RemoveSearchLinked(l, x, false), t, true, Elems(Shape(l)));
      } else {
        RemoveSearchWithin(r, x, false);
        LiftWithin(RemoveSearchLinked(r, x, false), t, false, Elems(Shape(r)));
      }
  }

  /** Whatever the parent pointers, a removal that completes never adds an
      element: it moves elements and drops subtrees. */
  lemma RemoveLinkedNeverAdds(t: Linked, x: int)
    ensures RemoveLinked(t, x).Some? ==> Elems(Shape(RemoveLinked(t, x).value)) <= Elems(Shape(t))
  {
    RemoveSearchWithin(t, x, true);
  }

  /** Counterexamples over several removals.  After inserting 1, 2 and 3,
      removing 2 leaves the shape alone but points 3 at 1; removing 3 then
      clears 1's right pointer, taking 2 with it.  After inserting 10, 5, 7
      and 20, removing 5 points 7 at 10, and removing 7 then drops 20 and
      keeps 7.  After inserting 1, 2 and 3 and removing 2 and then 1, the
      pointer of 3 names the freed 1, and removing 3 dereferences null. */
  lemma RemoveLinkedCompounds()
    ensures var t := InsertLinked(InsertLinked(InsertLinked(Nil, 1), 2), 3);
            && RemoveLinked(t, 2).Some?
            && Shape(RemoveLinked(t, 2).value) == Shape(t)
            && RemoveLinked(RemoveLinked(t, 2).value, 3) == Some(Link(Nil, 1, Nil, 0))
            && RemoveAsWritten(RemoveAsWritten(Shape(t), 2), 3) == Node(Leaf, 1, Node(Leaf, 2, Leaf))
    ensures var t := InsertLinked(InsertLinked(InsertLinked(InsertLinked(Nil, 10), 5), 7), 20);
            && RemoveLinked(t, 5).Some?
            && Shape(RemoveLinked(t, 5).value) == Shape(t)
            && RemoveLinked(RemoveLinked(t, 5).value, 7).Some?
            && Shape(RemoveLinked(RemoveLinked(t, 5).value, 7).value)
               == Node(Node(Leaf, 5, Node(Leaf, 7, Leaf)), 10, Leaf)
            && Remove(Remove(Shape(t), 5), 7) == Node(Leaf, 10, Node(Leaf, 20, Leaf))
    ensures var t := InsertLinked(InsertLinked(InsertLinked(Nil, 1), 2), 3);
            && RemoveLinked(t, 2).Some?
            && RemoveLinked(RemoveLinked(t, 2).value, 1).Some?
            && RemoveLinked(RemoveLinked(RemoveLinked(t, 2).value, 1).value, 3).None?
  {
    var t := InsertLinked(InsertLinked(InsertLinked(Nil, 1), 2), 3);
    assert t == Link(Nil, 1, Link(Nil, 2, Link(Nil, 3, Nil, 0), 0), 0);
    var t1 := Link(Nil, 1, Link(Nil, 2, Link(Nil, 3, Nil, 1), 0), 0);
    assert RemoveLinked(t, 2) == Some(t1);
    assert RemoveLinked(t1, 3) == Some(Link(Nil, 1, Nil, 0));
    var t2 := Link(Nil, 2, Link(Nil, 3, Nil, 1), 0);
    assert RemoveLinked(t1, 1) == Some(t2);
    assert RemoveLinked(t2, 3) == None;
    var u := InsertLinked(InsertLinked(InsertLinked(InsertLinked(Nil, 10), 5), 7), 20);
    assert u == Link(Link(Nil, 5, Link(Nil, 7, Nil, 0), 0), 10, Link(Nil, 20, Nil, 0), 0);
    var u1 := Link(Link(Nil, 5, Link(Nil, 7, Nil, 1), 0), 10, Link(Nil, 20, Nil, 0), 0);
    assert RemoveLinked(u, 5) == Some(u1);
    assert RemoveLinked(u1, 7) == Some(Link(Link(Nil, 5, Link(Nil, 7, Nil, 1), 0), 10, Nil, 0));
  }
}
