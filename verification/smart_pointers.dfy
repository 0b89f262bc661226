/** Reference-counted ownership: SharedPtr / WeakPtr over a shared control
    block (SharedPtr/smart_pointers.hpp).

    A control block is a record of two counters plus two event counters that
    record how often `delete_item` (destroy the payload) and `delete_block`
    (free the block itself) have fired.  Memory is a sequence of blocks; a
    block id is its index and ids are never reused, so a freed block keeps its
    record (with the stale counters the C++ leaves behind) and nothing else
    can alias it.  Handles are pairs of an optional payload id and an optional
    block id, and every operation is a pure function from the heap (and the
    handles) to the new heap (and handles). */
module SmartPointers {
  import opened Wrappers

  type BlockId = nat
  type ItemId = nat

  /** The counters are `size_t`: a decrement below zero wraps. */
  const SizeMax: nat := 0xFFFF_FFFF_FFFF_FFFF

  function Decrement(n: nat): nat {
    if n == 0 then SizeMax else n - 1
  }

  /** ControlBlockRegular (adopted pointer + deleter) or ControlBlockMakeShared
      (payload stored inside the block). */
  datatype BlockKind = Regular | InPlace

  datatype Block = Block(kind: BlockKind, sharedCount: nat, weakCount: nat,
                         itemDeletes: nat, blockFrees: nat)
  {
    predicate Freed() {
      blockFrees > 0
    }
  }

  /** BaseControlBlock starts with both counters at zero. */
  function FreshBlock(kind: BlockKind): Block {
    Block(kind, 0, 0, 0, 0)
  }

  type Heap = seq<Block>

  datatype SharedPtr = SharedPtr(item: Option<ItemId>, block: Option<BlockId>)
  datatype WeakPtr = WeakPtr(item: Option<ItemId>, block: Option<BlockId>)

  const NullShared: SharedPtr := SharedPtr(None, None)
  const NullWeak: WeakPtr := WeakPtr(None, None)

  /** The block pointer is null or names an allocated block. */
  predicate Refers(heap: Heap, block: Option<BlockId>) {
    block.Some? ==> block.value < |heap|
  }

  /** Every block other than `block` is left as it was. */
  predicate OthersUnchanged(heap: Heap, heap': Heap, block: Option<BlockId>) {
    && |heap'| == |heap|
    && forall c :: 0 <= c < |heap| && block != Some(c) ==> heap'[c] == heap[c]
  }

  // ---------------------------------------------------------------------
  // Counter updates on one block

  /** `++shared_count` when the block pointer is not null. */
  function AddShared(heap: Heap, block: Option<BlockId>): (r: Heap)
    requires Refers(heap, block)
    ensures OthersUnchanged(heap, r, block)
    ensures block.Some? ==> r[block.value] == heap[block.value].(sharedCount := heap[block.value].sharedCount + 1)
  {
    if block.None? then heap
    else heap[block.value := heap[block.value].(sharedCount := heap[block.value].sharedCount + 1)]
  }

  /** `++weak_count` when the block pointer is not null. */
  function AddWeak(heap: Heap, block: Option<BlockId>): (r: Heap)
    requires Refers(heap, block)
    ensures OthersUnchanged(heap, r, block)
    ensures block.Some? ==> r[block.value] == heap[block.value].(weakCount := heap[block.value].weakCount + 1)
  {
    if block.None? then heap
    else heap[block.value := heap[block.value].(weakCount := heap[block.value].weakCount + 1)]
  }

  /** The body of ~SharedPtr: the last strong owner deletes the item, and
      also frees the block when no weak owner is left; otherwise the strong
      counter drops by one. */
  function ReleaseShared(heap: Heap, block: Option<BlockId>): (r: Heap)
    requires Refers(heap, block)
    ensures OthersUnchanged(heap, r, block)
    ensures block.Some? && heap[block.value].sharedCount >= 1 ==>
              var old_ := heap[block.value];
              var new_ := r[block.value];
              var last := old_.sharedCount == 1;
              && new_.kind == old_.kind
              && new_.weakCount == old_.weakCount
              && new_.itemDeletes == old_.itemDeletes + (if last then 1 else 0)
              && new_.blockFrees == old_.blockFrees + (if last && old_.weakCount == 0 then 1 else 0)
              && (!(last && old_.weakCount == 0) ==> new_.sharedCount + 1 == old_.sharedCount)
  {
    if block.None? then heap
    else
      var b := block.value;
      var blk := heap[b];
      if blk.sharedCount == 1 then
        var dead := blk.(itemDeletes := blk.itemDeletes + 1);
        if dead.weakCount == 0 then heap[b := dead.(blockFrees := dead.blockFrees + 1)]
        else heap[b := dead.(sharedCount := Decrement(dead.sharedCount))]
      else heap[b := blk.(sharedCount := Decrement(blk.sharedCount))]
  }

  /** The body of ~WeakPtr: the weak counter drops, and the block is freed
      when both counters are then zero.  The item is never deleted here. */
  function ReleaseWeak(heap: Heap, block: Option<BlockId>): (r: Heap)
    requires Refers(heap, block)
    ensures OthersUnchanged(heap, r, block)
    ensures block.Some? && heap[block.value].weakCount >= 1 ==>
              var old_ := heap[block.value];
              var new_ := r[block.value];
              && new_.weakCount + 1 == old_.weakCount
              && new_.sharedCount == old_.sharedCount
              && new_.itemDeletes == old_.itemDeletes
              && new_.blockFrees == old_.blockFrees + (if old_.sharedCount == 0 && old_.weakCount == 1 then 1 else 0)
  {
    if block.None? then heap
    else
      var b := block.value;
      var blk := heap[b].(weakCount := Decrement(heap[b].weakCount));
      if blk.sharedCount == 0 && blk.weakCount == 0 then heap[b := blk.(blockFrees := blk.blockFrees + 1)]
      else heap[b := blk]
  }

  // ---------------------------------------------------------------------
  // SharedPtr

  /** use_count(): the strong counter, or 0 for a null handle. */
  function UseCount(heap: Heap, p: SharedPtr): nat
    requires Refers(heap, p.block)
  {
    if p.block.Some? then heap[p.block.value].sharedCount else 0
  }

  /** The private constructor SharedPtr(BaseControlBlock*, T*): share the
      block and count one more strong owner. */
  function Adopt(heap: Heap, block: Option<BlockId>, item: Option<ItemId>): (r: (Heap, SharedPtr))
    requires Refers(heap, block)
    ensures r.1 == SharedPtr(item, block) && Refers(r.0, block)
    ensures OthersUnchanged(heap, r.0, block)
    ensures UseCount(r.0, r.1) == UseCount(heap, r.1) + (if block.Some? then 1 else 0)
  {
    (AddShared(heap, block), SharedPtr(item, block))
  }

  /** SharedPtr(Y* ptr, Deleter, Alloc): allocate a regular block for the
      adopted pointer and count the new handle. */
  function FromRaw(heap: Heap, item: Option<ItemId>): (r: (Heap, SharedPtr))
    ensures |r.0| == |heap| + 1 && r.0[..|heap|] == heap
    ensures r.1.block == Some(|heap|) && r.1.item == item
    ensures UseCount(r.0, r.1) == 1
    ensures r.0[|heap|] == Block(Regular, 1, 0, 0, 0)
  {
    var blk := FreshBlock(Regular);
    (heap + [blk.(sharedCount := blk.sharedCount + 1)], SharedPtr(item, Some(|heap|)))
  }

  /** AllocateShared: construct the payload inside a new block, then hand it
      to the private constructor, which counts the new handle.  MakeShared is
      AllocateShared with the default allocator. */
  function AllocateShared(heap: Heap, item: ItemId): (r: (Heap, SharedPtr))
    ensures |r.0| == |heap| + 1 && r.0[..|heap|] == heap
    ensures r.1 == SharedPtr(Some(item), Some(|heap|))
    ensures UseCount(r.0, r.1) == 1
    ensures r.0[|heap|] == Block(InPlace, 1, 0, 0, 0)
  {
    var grown := heap + [FreshBlock(InPlace)];
    Adopt(grown, Some(|heap|), Some(item))
  }

  function MakeShared(heap: Heap, item: ItemId): (r: (Heap, SharedPtr))
    ensures |r.0| == |heap| + 1 && r.0[..|heap|] == heap
    ensures r.1 == SharedPtr(Some(item), Some(|heap|)) && UseCount(r.0, r.1) == 1
    ensures r.0[|heap|] == Block(InPlace, 1, 0, 0, 0)
  {
    AllocateShared(heap, item)
  }

  /** Copy construction (same or converting type): share the block and
      count the copy; a null handle copies to a null handle. */
  function Copy(heap: Heap, p: SharedPtr): (r: (Heap, SharedPtr))
    requires Refers(heap, p.block)
    ensures r.1 == p && OthersUnchanged(heap, r.0, p.block)
    ensures UseCount(r.0, r.1) == UseCount(heap, p) + (if p.block.Some? then 1 else 0)
    ensures p.block.None? ==> r.0 == heap && UseCount(r.0, r.1) == 0
  {
    (AddShared(heap, p.block), p)
  }

  /** Move construction: the new handle takes the pointers and counts
      itself, then a default temporary is swapped with the source and
      destroyed.  Returns the heap, the new handle and the emptied source.
      While the source still owns its block the counters end where they
      began. */
  function Move(heap: Heap, p: SharedPtr): (r: (Heap, SharedPtr, SharedPtr))
    requires Refers(heap, p.block)
    ensures r.1 == p && r.2 == NullShared
    ensures p.block.Some? && heap[p.block.value].sharedCount >= 1 ==> r.0 == heap
  {
    var counted := AddShared(heap, p.block);
    // SharedPtr().swap(copy): the temporary now holds the source's pointers
    var temporary := p;
    (ReleaseShared(counted, temporary.block), p, NullShared)
  }

  /** reset(): swap with a default temporary, whose destruction releases the
      old reference exactly once. */
  function Reset(heap: Heap, p: SharedPtr): (r: (Heap, SharedPtr))
    requires Refers(heap, p.block)
    ensures r.1 == NullShared && UseCount(r.0, r.1) == 0
    ensures r.0 == ReleaseShared(heap, p.block)
  {
    (ReleaseShared(heap, p.block), NullShared)
  }

  /** reset(Y*): build a handle for the new pointer, swap it in, and let the
      temporary release the old reference. */
  function ResetTo(heap: Heap, p: SharedPtr, item: Option<ItemId>): (r: (Heap, SharedPtr))
    requires Refers(heap, p.block)
    ensures r.1 == SharedPtr(item, Some(|heap|)) && Refers(r.0, r.1.block)
    ensures UseCount(r.0, r.1) == 1
    ensures r.0[..|heap|] == ReleaseShared(heap, p.block)
  {
    var made := FromRaw(heap, item);
    var released := ReleaseShared(made.0, p.block);
    assert released[..|heap|] == ReleaseShared(heap, p.block);
    (released, made.1)
  }

  // ---------------------------------------------------------------------
  // WeakPtr

  /** WeakPtr(const SharedPtr<Y>&): share the block and count a weak owner.
      The source must not be null (the counter is reached through it). */
  function WeakFromShared(heap: Heap, p: SharedPtr): (r: (Heap, WeakPtr))
    requires p.block.Some? && Refers(heap, p.block)
    ensures r.1 == WeakPtr(p.item, p.block) && OthersUnchanged(heap, r.0, p.block)
    ensures r.0[p.block.value].weakCount == heap[p.block.value].weakCount + 1
    ensures r.0[p.block.value].sharedCount == heap[p.block.value].sharedCount
  {
    (AddWeak(heap, p.block), WeakPtr(p.item, p.block))
  }

  /** expired(): no strong owner is left. The handle must not be null. */
  function Expired(heap: Heap, w: WeakPtr): bool
    requires w.block.Some? && Refers(heap, w.block)
  {
    heap[w.block.value].sharedCount == 0
  }

  /** lock(): a null handle when expired, otherwise a strong handle that
      shares the block and is counted.  The source passes the two pointers
      in the opposite order to the private constructor's parameters; this is
      the evident intent. */
  function Lock(heap: Heap, w: WeakPtr): (r: (Heap, SharedPtr))
    requires w.block.Some? && Refers(heap, w.block)
    ensures Expired(heap, w) ==> r == (heap, NullShared)
    ensures !Expired(heap, w) ==>
              && r.1 == SharedPtr(w.item, w.block) && OthersUnchanged(heap, r.0, w.block)
              && UseCount(r.0, r.1) == heap[w.block.value].sharedCount + 1
  {
    if Expired(heap, w) then (heap, NullShared) else Adopt(heap, w.block, w.item)
  }

  /** Copying a weak handle, as evidently intended: one more weak owner. */
  function WeakCopy(heap: Heap, w: WeakPtr): (r: (Heap, WeakPtr))
    requires Refers(heap, w.block)
    ensures r.1 == w && OthersUnchanged(heap, r.0, w.block)
    ensures w.block.Some? ==> r.0[w.block.value].weakCount == heap[w.block.value].weakCount + 1
  {
    (AddWeak(heap, w.block), w)
  }

  /** Copying a WeakPtr of the same type as written: the class declares no
      copy constructor of its own (the template one is never a copy
      constructor), so the implicit member-wise copy runs and nothing is
      counted. */
  function WeakCopyImplicit(heap: Heap, w: WeakPtr): (r: (Heap, WeakPtr))
    ensures r == (heap, w)
  {
    (heap, w)
  }

  /** Moving a weak handle, as evidently intended: the new handle takes over
      the source's weak ownership and no counter changes. */
  function WeakMove(heap: Heap, w: WeakPtr): (r: (Heap, WeakPtr, WeakPtr))
    ensures r == (heap, w, NullWeak)
  {
    (heap, w, NullWeak)
  }

  /** The converting move WeakPtr(WeakPtr<Y>&&) as written: it copies the
      pointers without counting, then a default temporary swaps with the
      source and its destructor takes one weak owner away. */
  function WeakMoveAsWritten(heap: Heap, w: WeakPtr): (r: (Heap, WeakPtr, WeakPtr))
    requires Refers(heap, w.block)
    ensures r.1 == w && r.2 == NullWeak
    ensures r.0 == ReleaseWeak(heap, w.block)
  {
    var temporary := w;
    (ReleaseWeak(heap, temporary.block), w, NullWeak)
  }

  // ---------------------------------------------------------------------
  // A family of handles: the heap plus every live strong and weak handle,
  // each in a numbered slot.

  datatype State = State(heap: Heap, strong: seq<SharedPtr>, weak: seq<WeakPtr>)

  const Init: State := State([], [], [])

  function StrongBlockOf(p: SharedPtr): Option<BlockId> {
    p.block
  }

  function WeakBlockOf(w: WeakPtr): Option<BlockId> {
    w.block
  }

  /** How many handles in `hs` refer to block `b`. */
  function Count<H>(hs: seq<H>, blockOf: H -> Option<BlockId>, b: BlockId): nat
    decreases |hs|
  {
    if |hs| == 0 then 0
    else Count(hs[..|hs| - 1], blockOf, b) + (if blockOf(hs[|hs| - 1]) == Some(b) then 1 else 0)
  }

  function StrongOwners(s: State, b: BlockId): nat {
    Count(s.strong, StrongBlockOf, b)
  }

  function WeakOwners(s: State, b: BlockId): nat {
    Count(s.weak, WeakBlockOf, b)
  }

  /** Every handle's block pointer is null or names an allocated block. */
  predicate InRange(s: State) {
    && (forall i :: 0 <= i < |s.strong| ==> Refers(s.heap, s.strong[i].block))
    && (forall i :: 0 <= i < |s.weak| ==> Refers(s.heap, s.weak[i].block))
  }

  /** The two-counter protocol for one block, given how many strong and weak
      handles refer to it: the item has been deleted exactly once iff no
      strong handle is left, the block has been freed exactly once iff no
      handle at all is left, and the counters of a block that is still
      allocated are exact. */
  predicate Accounted(blk: Block, strongOwners: nat, weakOwners: nat) {
    && blk.itemDeletes == (if strongOwners == 0 then 1 else 0)
    && blk.blockFrees == (if strongOwners == 0 && weakOwners == 0 then 1 else 0)
    && (blk.blockFrees == 0 ==> blk.sharedCount == strongOwners && blk.weakCount == weakOwners)
  }

  predicate Inv(s: State) {
    && InRange(s)
    && forall b :: 0 <= b < |s.heap| ==> Accounted(s.heap[b], StrongOwners(s, b), WeakOwners(s, b))
  }

  /** Remove slot i. */
  function Drop<H>(hs: seq<H>, i: nat): (r: seq<H>)
    requires i < |hs|
    ensures |r| == |hs| - 1
  {
    hs[..i] + hs[i + 1..]
  }

  /** The operations a program can perform on the family; slots are indices
      into `strong` / `weak`, and a new handle is appended. */
  datatype Step =
    | NewFromRaw(item: Option<ItemId>)
    | NewMakeShared(payload: ItemId)
    | NewNull
    | CopyOf(src: nat)
    | MoveOf(src: nat)
    | Destroy(slot: nat)
    | ResetSlot(slot: nat)
    | ResetSlotTo(slot: nat, item: Option<ItemId>)
    | CopyAssign(dst: nat, src: nat)
    | MoveAssign(dst: nat, src: nat)
    | NewWeak(src: nat)
    | WeakCopyOf(wsrc: nat)
    | WeakMoveOf(wsrc: nat)
    | LockOf(wsrc: nat)
    | DestroyWeak(wslot: nat)

  predicate Enabled(s: State, step: Step) {
    InRange(s) &&
    match step
    case NewFromRaw(_) => true
    case NewMakeShared(_) => true
    case NewNull => true
    case CopyOf(i) => i < |s.strong|
    case MoveOf(i) => i < |s.strong|
    case Destroy(i) => i < |s.strong|
    case ResetSlot(i) => i < |s.strong|
    case ResetSlotTo(i, _) => i < |s.strong|
    case CopyAssign(d, i) => d < |s.strong| && i < |s.strong|
    case MoveAssign(d, i) => d < |s.strong| && i < |s.strong|
    case NewWeak(i) => i < |s.strong| && s.strong[i].block.Some?
    case WeakCopyOf(k) => k < |s.weak|
    case WeakMoveOf(k) => k < |s.weak|
    case LockOf(k) => k < |s.weak| && s.weak[k].block.Some?
    case DestroyWeak(k) => k < |s.weak|
  }

  /** Copy assignment `strong[d] = strong[i]`: nothing when it is the same
      object; otherwise release the old reference, then share and count the
      source's block. */
  function AssignCopy(s: State, d: nat, i: nat): State
    requires InRange(s) && d < |s.strong| && i < |s.strong|
  {
    if d == i then s
    else
      var released := ReleaseShared(s.heap, s.strong[d].block);
      var src := s.strong[i];
      State(AddShared(released, src.block), s.strong[d := src], s.weak)
  }

  /** Move assignment `strong[d] = move(strong[i])`: nothing when it is the
      same object; otherwise a temporary is move-constructed from the source,
      swapped with the target, and destroyed with the target's old pointers. */
  function AssignMove(s: State, d: nat, i: nat): State
    requires InRange(s) && d < |s.strong| && i < |s.strong|
  {
    if d == i then s
    else
      var moved := Move(s.heap, s.strong[i]);
      var strong' := s.strong[i := moved.2][d := moved.1];
      State(ReleaseShared(moved.0, s.strong[d].block), strong', s.weak)
  }

  function Apply(s: State, step: Step): State
    requires Enabled(s, step)
  {
    match step
    case NewFromRaw(item) =>
      var r := FromRaw(s.heap, item);
      State(r.0, s.strong + [r.1], s.weak)
    case NewMakeShared(item) =>
      var r := MakeShared(s.heap, item);
      State(r.0, s.strong + [r.1], s.weak)
    case NewNull => State(s.heap, s.strong + [NullShared], s.weak)
    case CopyOf(i) =>
      var r := Copy(s.heap, s.strong[i]);
      State(r.0, s.strong + [r.1], s.weak)
    case MoveOf(i) =>
      var r := Move(s.heap, s.strong[i]);
      State(r.0, s.strong[i := r.2] + [r.1], s.weak)
    case Destroy(i) => State(ReleaseShared(s.heap, s.strong[i].block), Drop(s.strong, i), s.weak)
    case ResetSlot(i) =>
      var r := Reset(s.heap, s.strong[i]);
      State(r.0, s.strong[i := r.1], s.weak)
    case ResetSlotTo(i, item) =>
      var r := ResetTo(s.heap, s.strong[i], item);
      State(r.0, s.strong[i := r.1], s.weak)
    case CopyAssign(d, i) => AssignCopy(s, d, i)
    case MoveAssign(d, i) => AssignMove(s, d, i)
    case NewWeak(i) =>
      var r := WeakFromShared(s.heap, s.strong[i]);
      State(r.0, s.strong, s.weak + [r.1])
    case WeakCopyOf(k) =>
      var r := WeakCopy(s.heap, s.weak[k]);
      State(r.0, s.strong, s.weak + [r.1])
    case WeakMoveOf(k) =>
      var r := WeakMove(s.heap, s.weak[k]);
      State(r.0, s.strong, s.weak[k := r.2] + [r.1])
    case LockOf(k) =>
      var r := Lock(s.heap, s.weak[k]);
      State(r.0, s.strong + [r.1], s.weak)
    case DestroyWeak(k) => State(ReleaseWeak(s.heap, s.weak[k].block), s.strong, Drop(s.weak, k))
  }

  /** A sequence of steps from `s`; None when some step is not enabled. */
  function Run(s: State, steps: seq<Step>): Option<State>
    decreases |steps|
  {
    if |steps| == 0 then Some(s)
    else if Enabled(s, steps[0]) then Run(Apply(s, steps[0]), steps[1..])
    else None
  }

  // ---------------------------------------------------------------------
  // Counting handles

  function Mark<H>(blockOf: H -> Option<BlockId>, h: H, b: BlockId): nat {
    if blockOf(h) == Some(b) then 1 else 0
  }

  lemma CountAppend<H>(hs: seq<H>, x: H, blockOf: H -> Option<BlockId>, b: BlockId)
    ensures Count(hs + [x], blockOf, b) == Count(hs, blockOf, b) + Mark(blockOf, x, b)
  {
    assert (hs + [x])[..|hs|] == hs;
  }

  lemma {:induction false} CountUpdate<H>(hs: seq<H>, i: nat, x: H, blockOf: H -> Option<BlockId>, b: BlockId)
    requires i < |hs|
    ensures Count(hs[i := x], blockOf, b) + Mark(blockOf, hs[i], b) == Count(hs, blockOf, b) + Mark(blockOf, x, b)
    decreases |hs|
  {
    var n := |hs| - 1;
    if i == n {
      assert hs[i := x][..n] == hs[..n];
    } else {
      assert hs[i := x][..n] == hs[..n][i := x];
      CountUpdate(hs[..n], i, x, blockOf, b);
    }
  }

  lemma {:induction false} CountDrop<H>(hs: seq<H>, i: nat, blockOf: H -> Option<BlockId>, b: BlockId)
    requires i < |hs|
    ensures Count(Drop(hs, i), blockOf, b) + Mark(blockOf, hs[i], b) == Count(hs, blockOf, b)
    decreases |hs|
  {
    var n := |hs| - 1;
    if i == n {
      assert Drop(hs, i) == hs[..n];
    } else {
      assert Drop(hs, i) == Drop(hs[..n], i) + [hs[n]];
      CountDrop(hs[..n], i, blockOf, b);
      CountAppend(Drop(hs[..n], i), hs[n], blockOf, b);
    }
  }

  lemma {:induction false} CountAbsent<H>(hs: seq<H>, blockOf: H -> Option<BlockId>, b: BlockId)
    requires forall i :: 0 <= i < |hs| ==> blockOf(hs[i]) != Some(b)
    ensures Count(hs, blockOf, b) == 0
    decreases |hs|
  {
    if |hs| > 0 {
      CountAbsent(hs[..|hs| - 1], blockOf, b);
    }
  }

  /** A handle that refers to `b` is among its owners. */
  lemma CountPositive<H>(hs: seq<H>, i: nat, blockOf: H -> Option<BlockId>, b: BlockId)
    requires i < |hs| && blockOf(hs[i]) == Some(b)
    ensures Count(hs, blockOf, b) >= 1
  {
    CountDrop(hs, i, blockOf, b);
  }

  // ---------------------------------------------------------------------
  // What the invariant gives a live handle

  /** A strong handle's block is allocated, its item alive, and use_count()
      is exactly the number of strong handles sharing it. */
  lemma StrongHandleSound(s: State, i: nat)
    requires Inv(s) && i < |s.strong| && s.strong[i].block.Some?
    ensures var b := s.strong[i].block.value;
            && !s.heap[b].Freed() && s.heap[b].itemDeletes == 0
            && UseCount(s.heap, s.strong[i]) == StrongOwners(s, b) >= 1
  {
    CountPositive(s.strong, i, StrongBlockOf, s.strong[i].block.value);
  }

  /** A weak handle's block is allocated and its weak counter exact;
      expired() holds iff no strong handle shares the block. */
  lemma WeakHandleSound(s: State, k: nat)
    requires Inv(s) && k < |s.weak| && s.weak[k].block.Some?
    ensures var b := s.weak[k].block.value;
            && !s.heap[b].Freed() && s.heap[b].weakCount == WeakOwners(s, b) >= 1
            && (Expired(s.heap, s.weak[k]) <==> StrongOwners(s, b) == 0)
            && (Expired(s.heap, s.weak[k]) <==> s.heap[b].itemDeletes == 1)
  {
    CountPositive(s.weak, k, WeakBlockOf, s.weak[k].block.value);
  }

  // ---------------------------------------------------------------------
  // Every step keeps the protocol

  /** The heap is unchanged and no block's owner counts moved. */
  lemma SameOwnersKeepInv(s: State, s': State)
    requires Inv(s) && InRange(s') && s'.heap == s.heap
    requires forall b :: 0 <= b < |s.heap| ==> StrongOwners(s', b) == StrongOwners(s, b)
    requires forall b :: 0 <= b < |s.heap| ==> WeakOwners(s', b) == WeakOwners(s, b)
    ensures Inv(s')
  {
  }

  /** A new handle to a freshly allocated block, counted once. */
  lemma {:induction false} NewBlockKeepsInv(s: State, blk: Block, p: SharedPtr)
    requires Inv(s) && p.block == Some(|s.heap|)
    requires blk.sharedCount == 1 && blk.weakCount == 0 && blk.itemDeletes == 0 && blk.blockFrees == 0
    ensures Inv(State(s.heap + [blk], s.strong + [p], s.weak))
  {
    var s' := State(s.heap + [blk], s.strong + [p], s.weak);
    var newId := |s.heap|;
    forall b | 0 <= b < |s'.heap|
      ensures Accounted(s'.heap[b], StrongOwners(s', b), WeakOwners(s', b))
    {
      CountAppend(s.strong, p, StrongBlockOf, b);
      if b == newId {
        CountAbsent(s.strong, StrongBlockOf, b);
        CountAbsent(s.weak, WeakBlockOf, b);
      }
    }
  }

  /** Replace strong slot i by a null handle and release its reference:
      reset(), and the first half of both assignments. */
  lemma {:induction false} ReleaseSlotKeepsInv(s: State, i: nat)
    requires Inv(s) && i < |s.strong|
    ensures Inv(State(ReleaseShared(s.heap, s.strong[i].block), s.strong[i := NullShared], s.weak))
  {
    var p := s.strong[i];
    var s' := State(ReleaseShared(s.heap, p.block), s.strong[i := NullShared], s.weak);
    if p.block.Some? {
      StrongHandleSound(s, i);
    }
    forall b | 0 <= b < |s'.heap|
      ensures Accounted(s'.heap[b], StrongOwners(s', b), WeakOwners(s', b))
    {
      CountUpdate(s.strong, i, NullShared, StrongBlockOf, b);
    }
  }

  /** Destroy strong slot i. */
  lemma {:induction false} DestroyKeepsInv(s: State, i: nat)
    requires Inv(s) && i < |s.strong|
    ensures Inv(State(ReleaseShared(s.heap, s.strong[i].block), Drop(s.strong, i), s.weak))
  {
    var p := s.strong[i];
    var s' := State(ReleaseShared(s.heap, p.block), Drop(s.strong, i), s.weak);
    if p.block.Some? {
      StrongHandleSound(s, i);
    }
    forall b | 0 <= b < |s'.heap|
      ensures Accounted(s'.heap[b], StrongOwners(s', b), WeakOwners(s', b))
    {
      CountDrop(s.strong, i, StrongBlockOf, b);
    }
    assert InRange(s') by {
      forall j | 0 <= j < |s'.strong|
        ensures Refers(s'.heap, s'.strong[j].block)
      {
        if j < i {
          assert s'.strong[j] == s.strong[j];
        } else {
          assert s'.strong[j] == s.strong[j + 1];
        }
      }
    }
  }

  /** Put a copy of strong slot i into slot d (d is null, or a new slot at
      the end) and count it. */
  lemma {:induction false} CopyIntoKeepsInv(s: State, i: nat, strong': seq<SharedPtr>)
    requires Inv(s) && i < |s.strong|
    requires forall b :: StrongOwners(State(s.heap, strong', s.weak), b) == StrongOwners(s, b) + Mark(StrongBlockOf, s.strong[i], b)
    requires forall j :: 0 <= j < |strong'| ==> strong'[j].block == s.strong[i].block || strong'[j] in s.strong
    ensures Inv(State(AddShared(s.heap, s.strong[i].block), strong', s.weak))
  {
    var p := s.strong[i];
    var s' := State(AddShared(s.heap, p.block), strong', s.weak);
    if p.block.Some? {
      StrongHandleSound(s, i);
    }
    assert InRange(s') by {
      forall j | 0 <= j < |strong'|
        ensures Refers(s'.heap, strong'[j].block)
      {
        if strong'[j].block != p.block {
          var k :| 0 <= k < |s.strong| && s.strong[k] == strong'[j];
        }
      }
    }
  }

  lemma CopyOfKeepsInv(s: State, i: nat)
    requires Inv(s) && i < |s.strong|
    ensures Inv(Apply(s, CopyOf(i)))
  {
    var strong' := s.strong + [s.strong[i]];
    forall b
      ensures StrongOwners(State(s.heap, strong', s.weak), b) == StrongOwners(s, b) + Mark(StrongBlockOf, s.strong[i], b)
    {
      CountAppend(s.strong, s.strong[i], StrongBlockOf, b);
    }
    CopyIntoKeepsInv(s, i, strong');
  }

  lemma {:induction false} CopyAssignKeepsInv(s: State, d: nat, i: nat)
    requires Inv(s) && d < |s.strong| && i < |s.strong|
    ensures Inv(Apply(s, CopyAssign(d, i)))
  {
    if d != i {
      ReleaseSlotKeepsInv(s, d);
      var s1 := State(ReleaseShared(s.heap, s.strong[d].block), s.strong[d := NullShared], s.weak);
      assert s1.strong[i] == s.strong[i];
      var strong' := s1.strong[d := s.strong[i]];
      assert strong' == s.strong[d := s.strong[i]];
      forall b
        ensures StrongOwners(State(s1.heap, strong', s1.weak), b) == StrongOwners(s1, b) + Mark(StrongBlockOf, s1.strong[i], b)
      {
        CountUpdate(s1.strong, d, s.strong[i], StrongBlockOf, b);
      }
      CopyIntoKeepsInv(s1, i, strong');
    }
  }

  /** The strong handles are rearranged without changing any block's
      number of owners, and the heap is left alone. */
  lemma {:induction false} MoveOfKeepsInv(s: State, i: nat)
    requires Inv(s) && i < |s.strong|
    ensures Inv(Apply(s, MoveOf(i)))
  {
    var p := s.strong[i];
    if p.block.Some? {
      StrongHandleSound(s, i);
    }
    var s' := Apply(s, MoveOf(i));
    assert s'.heap == s.heap;
    forall b | 0 <= b < |s.heap|
      ensures StrongOwners(s', b) == StrongOwners(s, b)
    {
      CountUpdate(s.strong, i, NullShared, StrongBlockOf, b);
      CountAppend(s.strong[i := NullShared], p, StrongBlockOf, b);
    }
    SameOwnersKeepInv(s, s');
  }

  /** While the source owns its block, move assignment is a release of the
      target followed by a relabelling of the source. */
  lemma MoveAssignShape(s: State, d: nat, i: nat)
    requires Inv(s) && d < |s.strong| && i < |s.strong| && d != i
    ensures Apply(s, MoveAssign(d, i))
            == State(ReleaseShared(s.heap, s.strong[d].block), s.strong[d := NullShared][i := NullShared][d := s.strong[i]], s.weak)
  {
    if s.strong[i].block.Some? {
      StrongHandleSound(s, i);
    }
    assert s.strong[d := NullShared][i := NullShared][d := s.strong[i]] == s.strong[i := NullShared][d := s.strong[i]];
  }

  lemma {:induction false} MoveAssignKeepsInv(s: State, d: nat, i: nat)
    requires Inv(s) && d < |s.strong| && i < |s.strong|
    ensures Inv(Apply(s, MoveAssign(d, i)))
  {
    if d != i {
      var p := s.strong[i];
      MoveAssignShape(s, d, i);
      ReleaseSlotKeepsInv(s, d);
      var s1 := State(ReleaseShared(s.heap, s.strong[d].block), s.strong[d := NullShared], s.weak);
      assert s1.strong[i] == p;
      var s' := State(s1.heap, s1.strong[i := NullShared][d := p], s.weak);
      forall b | 0 <= b < |s1.heap|
        ensures StrongOwners(s', b) == StrongOwners(s1, b)
      {
        CountUpdate(s1.strong, i, NullShared, StrongBlockOf, b);
        CountUpdate(s1.strong[i := NullShared], d, p, StrongBlockOf, b);
      }
      SameOwnersKeepInv(s1, s');
    }
  }

  lemma {:induction false} ResetToKeepsInv(s: State, i: nat, item: Option<ItemId>)
    requires Inv(s) && i < |s.strong|
    ensures Inv(Apply(s, ResetSlotTo(i, item)))
  {
    ReleaseSlotKeepsInv(s, i);
    var s1 := State(ReleaseShared(s.heap, s.strong[i].block), s.strong[i := NullShared], s.weak);
    var r := ResetTo(s.heap, s.strong[i], item);
    var blk := Block(Regular, 1, 0, 0, 0);
    assert r.0 == s1.heap + [blk];
    var s2 := State(s1.heap + [blk], s1.strong + [r.1], s1.weak);
    NewBlockKeepsInv(s1, blk, r.1);
    var s' := Apply(s, ResetSlotTo(i, item));
    assert s'.strong == s1.strong[i := r.1];
    forall b | 0 <= b < |s2.heap|
      ensures StrongOwners(s', b) == StrongOwners(s2, b)
    {
      CountUpdate(s1.strong, i, r.1, StrongBlockOf, b);
      CountAppend(s1.strong, r.1, StrongBlockOf, b);
    }
    SameOwnersKeepInv(s2, s');
  }

  /** Add a weak handle to the block of a handle that already has an owner. */
  lemma {:induction false} NewWeakKeepsInv(s: State, i: nat)
    requires Inv(s) && i < |s.strong| && s.strong[i].block.Some?
    ensures Inv(Apply(s, NewWeak(i)))
  {
    var p := s.strong[i];
    StrongHandleSound(s, i);
    var s' := Apply(s, NewWeak(i));
    forall b | 0 <= b < |s'.heap|
      ensures Accounted(s'.heap[b], StrongOwners(s', b), WeakOwners(s', b))
    {
      CountAppend(s.weak, WeakPtr(p.item, p.block), WeakBlockOf, b);
    }
  }

  lemma {:induction false} WeakCopyKeepsInv(s: State, k: nat)
    requires Inv(s) && k < |s.weak|
    ensures Inv(Apply(s, WeakCopyOf(k)))
  {
    var w := s.weak[k];
    if w.block.Some? {
      WeakHandleSound(s, k);
    }
    var s' := Apply(s, WeakCopyOf(k));
    forall b | 0 <= b < |s'.heap|
      ensures Accounted(s'.heap[b], StrongOwners(s', b), WeakOwners(s', b))
    {
      CountAppend(s.weak, w, WeakBlockOf, b);
    }
  }

  lemma {:induction false} WeakMoveKeepsInv(s: State, k: nat)
    requires Inv(s) && k < |s.weak|
    ensures Inv(Apply(s, WeakMoveOf(k)))
  {
    var w := s.weak[k];
    var s' := Apply(s, WeakMoveOf(k));
    forall b | 0 <= b < |s.heap|
      ensures WeakOwners(s', b) == WeakOwners(s, b)
    {
      CountUpdate(s.weak, k, NullWeak, WeakBlockOf, b);
      CountAppend(s.weak[k := NullWeak], w, WeakBlockOf, b);
    }
    SameOwnersKeepInv(s, s');
  }

  lemma {:induction false} LockKeepsInv(s: State, k: nat)
    requires Inv(s) && k < |s.weak| && s.weak[k].block.Some?
    ensures Inv(Apply(s, LockOf(k)))
  {
    var w := s.weak[k];
    WeakHandleSound(s, k);
    var r := Lock(s.heap, w);
    var s' := Apply(s, LockOf(k));
    forall b | 0 <= b < |s'.heap|
      ensures Accounted(s'.heap[b], StrongOwners(s', b), WeakOwners(s', b))
    {
      CountAppend(s.strong, r.1, StrongBlockOf, b);
    }
  }

  lemma {:induction false} DestroyWeakKeepsInv(s: State, k: nat)
    requires Inv(s) && k < |s.weak|
    ensures Inv(Apply(s, DestroyWeak(k)))
  {
    var w := s.weak[k];
    if w.block.Some? {
      WeakHandleSound(s, k);
    }
    var s' := Apply(s, DestroyWeak(k));
    forall b | 0 <= b < |s'.heap|
      ensures Accounted(s'.heap[b], StrongOwners(s', b), WeakOwners(s', b))
    {
      CountDrop(s.weak, k, WeakBlockOf, b);
    }
    assert InRange(s') by {
      forall j | 0 <= j < |s'.weak|
        ensures Refers(s'.heap, s'.weak[j].block)
      {
        if j < k {
          assert s'.weak[j] == s.weak[j];
        } else {
          assert s'.weak[j] == s.weak[j + 1];
        }
      }
    }
  }

  /** Every operation keeps the two-counter protocol. */
  lemma StepKeepsInv(s: State, step: Step)
    requires Inv(s) && Enabled(s, step)
    ensures Inv(Apply(s, step))
  {
    match step
    case NewFromRaw(item) =>
      NewBlockKeepsInv(s, Block(Regular, 1, 0, 0, 0), FromRaw(s.heap, item).1);
    case NewMakeShared(item) =>
      var r := MakeShared(s.heap, item);
      assert r.0 == s.heap + [Block(InPlace, 1, 0, 0, 0)];
      NewBlockKeepsInv(s, Block(InPlace, 1, 0, 0, 0), r.1);
    case NewNull =>
      var s' := Apply(s, step);
      forall b | 0 <= b < |s.heap|
        ensures StrongOwners(s', b) == StrongOwners(s, b)
      {
        CountAppend(s.strong, NullShared, StrongBlockOf, b);
      }
      SameOwnersKeepInv(s, s');
    case CopyOf(i) => CopyOfKeepsInv(s, i);
    case MoveOf(i) => MoveOfKeepsInv(s, i);
    case Destroy(i) => DestroyKeepsInv(s, i);
    case ResetSlot(i) => ReleaseSlotKeepsInv(s, i);
    case ResetSlotTo(i, item) => ResetToKeepsInv(s, i, item);
    case CopyAssign(d, i) => CopyAssignKeepsInv(s, d, i);
    case MoveAssign(d, i) => MoveAssignKeepsInv(s, d, i);
    case NewWeak(i) => NewWeakKeepsInv(s, i);
    case WeakCopyOf(k) => WeakCopyKeepsInv(s, k);
    case WeakMoveOf(k) => WeakMoveKeepsInv(s, k);
    case LockOf(k) => LockKeepsInv(s, k);
    case DestroyWeak(k) => DestroyWeakKeepsInv(s, k);
  }

  lemma {:induction false} RunKeepsInv(s: State, steps: seq<Step>)
    requires Inv(s) && Run(s, steps).Some?
    ensures Inv(Run(s, steps).value)
    decreases |steps|
  {
    if |steps| > 0 {
      StepKeepsInv(s, steps[0]);
      RunKeepsInv(Apply(s, steps[0]), steps[1..]);
    }
  }

  /** For any program built from these operations: each payload is
      destroyed at most once, and only once no strong handle is left; each
      block is freed at most once, and never before its payload. */
  lemma DestroyAtMostOnce(steps: seq<Step>, b: BlockId)
    requires Run(Init, steps).Some? && b < |Run(Init, steps).value.heap|
    ensures var t := Run(Init, steps).value;
            && t.heap[b].itemDeletes <= 1 && t.heap[b].blockFrees <= t.heap[b].itemDeletes
            && (t.heap[b].itemDeletes == 1 <==> StrongOwners(t, b) == 0)
  {
    RunKeepsInv(Init, steps);
  }

  /** Once every handle is gone, every payload has been destroyed exactly
      once and every block freed exactly once: nothing leaks. */
  lemma NoLeak(steps: seq<Step>, b: BlockId)
    requires Run(Init, steps).Some?
    requires Run(Init, steps).value.strong == [] && Run(Init, steps).value.weak == []
    requires b < |Run(Init, steps).value.heap|
    ensures Run(Init, steps).value.heap[b].itemDeletes == 1
    ensures Run(Init, steps).value.heap[b].blockFrees == 1
  {
    RunKeepsInv(Init, steps);
  }

  // ---------------------------------------------------------------------
  // The weak-handle copy and move as written

  /** make_shared, one weak handle, then moving that weak handle: the moved
      handle is not counted, so destroying the only strong handle frees the
      block while a weak handle still points at it. */
  lemma WeakMoveAsWrittenFreesEarly()
    ensures var made := MakeShared([], 7);
            var weak := WeakFromShared(made.0, made.1);
            var moved := WeakMoveAsWritten(weak.0, weak.1);
            && moved.1.block == Some(0)
            && moved.0[0].weakCount == 0
            && ReleaseShared(moved.0, made.1.block)[0].Freed()
  {
  }

  /** The same program with the intended move keeps the block allocated. */
  lemma WeakMoveKeepsBlock()
    ensures var made := MakeShared([], 7);
            var weak := WeakFromShared(made.0, made.1);
            var moved := WeakMove(weak.0, weak.1);
            && moved.1.block == Some(0)
            && moved.0[0].weakCount == 1
            && !ReleaseShared(moved.0, made.1.block)[0].Freed()
  {
  }

  /** The implicit copy of a weak handle is not counted: after one strong
      and two weak handles, releasing the strong one and one weak one frees
      the block under the remaining weak handle, and releasing that one too
      wraps the weak counter round to SIZE_MAX. */
  lemma WeakCopyImplicitUnderCounts()
    ensures var made := MakeShared([], 7);
            var weak := WeakFromShared(made.0, made.1);
            var copied := WeakCopyImplicit(weak.0, weak.1);
            var h1 := ReleaseShared(copied.0, made.1.block);
            var h2 := ReleaseWeak(h1, weak.1.block);
            && h2[0].Freed()
            && ReleaseWeak(h2, copied.1.block)[0].weakCount == SizeMax
  {
  }
}
