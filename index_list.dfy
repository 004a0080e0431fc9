/**
 The index list itself (`IndexList<T>`, src/lib.rs:162-1010): a vector of
 element cells and a vector of link records, aligned by slot, with two chains
 threaded through the links. The used chain runs through the occupied slots
 in list order; the free chain runs through the empty slots in the order they
 were freed.

 The ghost fields `usedOrder` and `freeOrder` name the slots of each chain from
 head to tail. `Valid()` ties them to the links and the cells, and
 `Elements()` is the sequence the list holds; the operations are specified
 against these two.
 */
module IndexLists {
  import opened Wrappers
  import opened Handles
  import opened Seqs
  import opened Links
  import opened Slots

  const I32_MIN: int := -0x8000_0000
  const I32_MAX: int := 0x7FFF_FFFF

  class IndexList<T(==)> {
    var elems: seq<Option<T>>
    var nodes: seq<IndexNode>
    var used: IndexEnds
    var free: IndexEnds
    var size: nat
    /** The slots of the used chain, from `used.head` to `used.tail`. */
    ghost var usedOrder: seq<nat>
    /** The slots of the free chain, from `free.head` to `free.tail`. */
    ghost var freeOrder: seq<nat>

    /** Both chains are well linked over `nodes` and share no slot. */
    ghost predicate Linked()
      reads this
    {
      && |elems| == |nodes|
      && Chain(nodes, usedOrder, used)
      && Chain(nodes, freeOrder, free)
      && Apart(usedOrder, freeOrder)
    }

    /**
     The representation invariant: the occupied slots are exactly those of the
     used chain, the empty slots exactly those of the free chain, and `size`
     counts the used chain.
     */
    ghost predicate Valid()
      reads this
    {
      && Linked()
      && Partition(elems, usedOrder, freeOrder, -1)
      && size == |usedOrder|
    }

    /**
     The state between `new_node` and the link-in that follows it: slot `node`
     holds an element but is on neither chain yet.
     */
    ghost predicate ValidBut(node: Index)
      reads this
    {
      && Linked()
      && node.IsSome() && node.Slot() < |elems|
      && node.Slot() !in usedOrder && node.Slot() !in freeOrder
      && elems[node.Slot()].Some? && nodes[node.Slot()] == Detached
      && Partition(elems, usedOrder, freeOrder, node.Slot())
      && size == |usedOrder| + 1
    }

    /** The elements of the list, in list order. */
    ghost function Elements(): (r: seq<T>)
      reads this
      requires Valid()
      ensures |r| == |usedOrder| == size
    {
      assert Occupies(elems, usedOrder);
      ElementsOf(elems, usedOrder)
    }

    /** The slots of the used chain are occupied, so `Elements()` is defined on them. */
    lemma UsedOccupied()
      requires Valid()
      ensures Occupies(elems, usedOrder) && Elements() == ElementsOf(elems, usedOrder)
    {
    }

    /** `IndexList::new`: no slots, both chains empty. */
    constructor ()
      ensures Valid() && Elements() == [] && Capacity() == 0 && freeOrder == []
    {
      elems := [];
      nodes := [];
      used := NoEnds;
      free := NoEnds;
      size := 0;
      usedOrder := [];
      freeOrder := [];
    }

    /** `clear`: both vectors emptied and both chains reset. */
    method Clear()
      modifies this
      ensures Valid() && Elements() == [] && Capacity() == 0 && freeOrder == []
    {
      elems := [];
      nodes := [];
      used := NoEnds;
      free := NoEnds;
      size := 0;
      usedOrder := [];
      freeOrder := [];
    }

    // ---------------------------------------------------------------------
    // Queries

    /** `capacity`: the number of slots. */
    function Capacity(): nat
      reads this
    {
      |elems|
    }

    /** `len`: the `size` counter, which counts the slots of the used chain. */
    function Len(): (r: nat)
      reads this
      ensures Valid() ==> r == |usedOrder|
    {
      size
    }

    /** `is_empty`: the used chain has no head, which is when it has no slot. */
    predicate IsEmpty()
      reads this
      ensures Valid() ==> (IsEmpty() <==> usedOrder == [])
    {
      used.IsEmpty()
    }

    /**
     Every slot is on exactly one chain, so the capacity is the length of the
     list plus the number of free slots.
     */
    lemma CapacityIsSum()
      requires Valid()
      ensures Capacity() == |usedOrder| + |freeOrder|
      ensures Len() == |Elements()| <= Capacity() <= MAX_SLOTS
    {
      var cap := |elems|;
      SlotsCount(elems, 0, cap);
      SlotsDistinct(elems, 0, cap, true);
      SlotsDistinct(elems, 0, cap, false);
      SameElementsSameLength(SlotsWhere(elems, 0, cap, true), usedOrder);
      SameElementsSameLength(SlotsWhere(elems, 0, cap, false), freeOrder);
    }

    /** `is_empty` tests the head of the used chain; it agrees with `len() == 0`. */
    lemma IsEmptyIffLenZero()
      requires Valid()
      ensures IsEmpty() <==> Len() == 0
      ensures IsEmpty() <==> Elements() == []
    {
    }

    /** `first_index`: the head of the used chain, the handle of the first element. */
    function FirstIndex(): (r: Index)
      reads this
      ensures Valid() ==> r == HandleAt(usedOrder, 0)
    {
      used.head
    }

    /** `last_index`: the tail of the used chain, the handle of the last element. */
    function LastIndex(): (r: Index)
      reads this
      ensures Valid() ==> r == HandleAt(usedOrder, |usedOrder| - 1)
    {
      used.tail
    }

    /**
     `next_index`: the `next` link of an in-range slot, whether it is occupied
     or not. `StepsOnUsedChain` and `StepsOnFreeChain` say where it leads.
     */
    function NextIndex(index: Index): (r: Index)
      reads this
      ensures index.IsNone() || index.Slot() >= |nodes| ==> r.IsNone()
    {
      match index.Get()
      case Some(ndx) => if ndx < |nodes| then nodes[ndx].next else Index.New()
      case None => Index.New()
    }

    /**
     `prev_index`: the `prev` link of an in-range slot, whether it is occupied
     or not. `StepsOnUsedChain` and `StepsOnFreeChain` say where it leads.
     */
    function PrevIndex(index: Index): (r: Index)
      reads this
      ensures index.IsNone() || index.Slot() >= |nodes| ==> r.IsNone()
    {
      match index.Get()
      case Some(ndx) => if ndx < |nodes| then nodes[ndx].prev else Index.New()
      case None => Index.New()
    }

    /** The ends of the used chain are the handles of the first and last element. */
    lemma EndsOfUsedChain()
      requires Valid()
      ensures FirstIndex() == HandleAt(usedOrder, 0)
      ensures LastIndex() == HandleAt(usedOrder, |usedOrder| - 1)
      ensures FirstIndex().IsNone() <==> Elements() == []
      ensures LastIndex().IsNone() <==> Elements() == []
    {
    }

    /** Along the used chain, `next_index` and `prev_index` step to the neighbours in list order. */
    lemma StepsOnUsedChain(k: nat)
      requires Valid() && k < |usedOrder|
      ensures NextIndex(Index.ForSlot(usedOrder[k])) == HandleAt(usedOrder, k + 1)
      ensures PrevIndex(Index.ForSlot(usedOrder[k])) == HandleAt(usedOrder, k - 1)
    {
    }

    /**
     Navigation does not check occupancy: from a freed slot, `next_index` and
     `prev_index` follow the free chain.
     */
    lemma StepsOnFreeChain(k: nat)
      requires Valid() && k < |freeOrder|
      ensures NextIndex(Index.ForSlot(freeOrder[k])) == HandleAt(freeOrder, k + 1)
      ensures PrevIndex(Index.ForSlot(freeOrder[k])) == HandleAt(freeOrder, k - 1)
    {
    }

    /** `prev` mirrors `next`: stepping forward and then back returns to a used slot. */
    lemma NextPrevInverse(index: Index)
      requires Valid() && index.IsSome() && index.Slot() in usedOrder
      ensures NextIndex(index).IsSome() ==> PrevIndex(NextIndex(index)) == index
      ensures PrevIndex(index).IsSome() ==> NextIndex(PrevIndex(index)) == index
    {
      var k := PositionOf(usedOrder, index.Slot());
      StepsOnUsedChain(k);
      if k + 1 < |usedOrder| {
        StepsOnUsedChain(k + 1);
      }
      if k > 0 {
        StepsOnUsedChain(k - 1);
      }
    }

    /** `get`: the element of an occupied slot, `None` for an invalid, out-of-range or empty one. */
    function Get(index: Index): (r: Option<T>)
      reads this
      ensures |elems| <= USIZE_MAX ==>
        r == if index.IsSome() && index.Slot() < |elems| then elems[index.Slot()] else None
    {
      // an invalid handle is looked up at usize::MAX, which no vector of this size reaches
      var ndx := match index.Get() case Some(n) => n case None => USIZE_MAX;
      if ndx < |elems| then elems[ndx] else None
    }

    /** `get_mut`, seen as the value it gives access to: it checks the slot against the capacity. */
    function GetMut(index: Index): (r: Option<T>)
      reads this
      ensures Valid() ==> r == Get(index)
    {
      match index.Get()
      case Some(ndx) => if ndx < |elems| then elems[ndx] else None
      case None => None
    }

    /** `get_mut` and `get` read the same cell, although they guard the lookup differently. */
    lemma GetMutIsGet(index: Index)
      requires Valid()
      ensures GetMut(index) == Get(index)
    {
    }

    /** `is_index_used`: the handle names a slot of the used chain. */
    predicate IsIndexUsed(index: Index)
      reads this
      ensures Valid() ==> (IsIndexUsed(index) <==> index.IsSome() && index.Slot() in usedOrder)
    {
      Get(index).Some?
    }

    /** The handle of the k-th element gives the k-th element. */
    lemma GetOnUsedChain(k: nat)
      requires Valid() && k < |usedOrder|
      ensures Get(Index.ForSlot(usedOrder[k])) == Some(Elements()[k])
      ensures IsIndexUsed(Index.ForSlot(usedOrder[k]))
    {
    }

    /** `get_first`: the first element, `None` on an empty list. */
    function GetFirst(): (r: Option<T>)
      reads this
      ensures Valid() ==> r == if usedOrder == [] then None else Some(Elements()[0])
    {
      Get(FirstIndex())
    }

    /** `get_last`: the last element, `None` on an empty list. */
    function GetLast(): (r: Option<T>)
      reads this
      ensures Valid() ==> r == if usedOrder == [] then None else Some(Elements()[|usedOrder| - 1])
    {
      Get(LastIndex())
    }

    /** `get_mut_first`: the same element as `get_first`. */
    function GetMutFirst(): (r: Option<T>)
      reads this
      ensures Valid() ==> r == GetFirst()
    {
      GetMut(FirstIndex())
    }

    /** `get_mut_last`: the same element as `get_last`. */
    function GetMutLast(): (r: Option<T>)
      reads this
      ensures Valid() ==> r == GetLast()
    {
      GetMut(LastIndex())
    }

    /** The first and last element, `None` when the list is empty. */
    lemma GetFirstLast()
      requires Valid()
      ensures GetFirst() == GetMutFirst() == if Elements() == [] then None else Some(Elements()[0])
      ensures GetLast() == GetMutLast() == if Elements() == [] then None else Some(Elements()[|Elements()| - 1])
    {
      GetMutIsGet(FirstIndex());
      GetMutIsGet(LastIndex());
      if usedOrder != [] {
        GetOnUsedChain(0);
        GetOnUsedChain(|usedOrder| - 1);
      }
    }

    /** `peek_next`: from an element, the element after it, `None` from the last. */
    function PeekNext(index: Index): (r: Option<T>)
      reads this
      ensures Valid() && IsIndexUsed(index) ==>
        var k := PositionOf(usedOrder, index.Slot());
        r == if k + 1 < |usedOrder| then Some(Elements()[k + 1]) else None
    {
      Get(NextIndex(index))
    }

    /** `peek_prev`: from an element, the element before it, `None` from the first. */
    function PeekPrev(index: Index): (r: Option<T>)
      reads this
      ensures Valid() && IsIndexUsed(index) ==>
        var k := PositionOf(usedOrder, index.Slot());
        r == if k > 0 then Some(Elements()[k - 1]) else None
    {
      Get(PrevIndex(index))
    }

    /** Peeking from the k-th element sees its neighbours in list order. */
    lemma PeekOnUsedChain(k: nat)
      requires Valid() && k < |usedOrder|
      ensures PeekNext(Index.ForSlot(usedOrder[k])) == if k + 1 < |usedOrder| then Some(Elements()[k + 1]) else None
      ensures PeekPrev(Index.ForSlot(usedOrder[k])) == if k > 0 then Some(Elements()[k - 1]) else None
    {
      GetOnUsedChain(k);
      PositionOfDistinct(usedOrder, k);
    }

    /** `contains`: some cell holds the element, which is when `index_of` finds one. */
    predicate Contains(elem: T)
      reads this
      ensures |elems| <= MAX_SLOTS ==> (Contains(elem) <==> IndexOf(elem).IsSome())
    {
      Some(elem) in elems
    }

    /** A cell holds the element exactly when the element is in the list. */
    lemma ContainsIffInElements(elem: T)
      requires Valid()
      ensures Contains(elem) <==> elem in Elements()
    {
      var es := Elements();
      if Contains(elem) {
        var i :| 0 <= i < |elems| && elems[i] == Some(elem);
        var k := PositionOf(usedOrder, i);
        assert es[k] == elem;
      }
      if elem in es {
        var k :| 0 <= k < |es| && es[k] == elem;
        assert elems[usedOrder[k]] == Some(elem);
      }
    }

    /** `index_of`: the handle of the lowest-numbered slot holding the element, or the invalid handle. */
    function IndexOf(elem: T): (r: Index)
      reads this
      ensures |elems| <= MAX_SLOTS ==> (r.IsSome() <==> Some(elem) in elems)
      ensures |elems| <= MAX_SLOTS && r.IsSome() ==>
        && r.Slot() < |elems| && elems[r.Slot()] == Some(elem)
        && forall j :: 0 <= j < r.Slot() ==> elems[j] != Some(elem)
    {
      Index.FromOption(FirstHolding(elems, elem))
    }

    /** The handle `index_of` finds is that of an element of the list equal to the one sought. */
    lemma IndexOfFindsElement(elem: T)
      requires Valid()
      ensures IndexOf(elem).IsSome() <==> elem in Elements()
      ensures IndexOf(elem).IsSome() ==> IsIndexUsed(IndexOf(elem)) && Get(IndexOf(elem)) == Some(elem)
    {
      ContainsIffInElements(elem);
    }

    /** `next_index` applied n times. */
    ghost function Forward(index: Index, n: nat): Index
      reads this
    {
      if n == 0 then index else NextIndex(Forward(index, n - 1))
    }

    /** `prev_index` applied n times. */
    ghost function Backward(index: Index, n: nat): Index
      reads this
    {
      if n == 0 then index else PrevIndex(Backward(index, n - 1))
    }

    /** Once a walk has left the list it stays off it. */
    lemma {:induction false} WalkFromInvalid(n: nat)
      ensures Forward(Index.New(), n).IsNone() && Backward(Index.New(), n).IsNone()
    {
      if n > 0 {
        WalkFromInvalid(n - 1);
      }
    }

    /**
     From the k-th element, n steps forward reach the (k + n)-th element and n
     steps back the (k - n)-th, and the invalid handle past either end.
     */
    lemma {:induction false} WalkAlongUsedChain(k: nat, n: nat)
      requires Valid() && k < |usedOrder|
      ensures Forward(Index.ForSlot(usedOrder[k]), n) == HandleAt(usedOrder, k + n)
      ensures Backward(Index.ForSlot(usedOrder[k]), n) == HandleAt(usedOrder, k - n)
    {
      if n > 0 {
        WalkAlongUsedChain(k, n - 1);
        if k + n - 1 < |usedOrder| {
          StepsOnUsedChain(k + n - 1);
        }
        if k - (n - 1) >= 0 {
          StepsOnUsedChain(k - (n - 1));
        }
      }
    }

    /**
     `move_index`: `steps` times `next_index` for a positive count, `-steps`
     times `prev_index` for a negative one.
     */
    method MoveIndex(index: Index, steps: int) returns (r: Index)
      requires I32_MIN < steps <= I32_MAX
      ensures steps >= 0 ==> r == Forward(index, steps)
      ensures steps < 0 ==> r == Backward(index, -steps)
      ensures index.IsNone() ==> r.IsNone()
      ensures Valid() && index.IsSome() && index.Slot() in usedOrder ==>
        r == HandleAt(usedOrder, PositionOf(usedOrder, index.Slot()) + steps)
    {
      r := index;
      if steps > 0 {
        var i := 0;
        while i < steps
          invariant 0 <= i <= steps && r == Forward(index, i)
        {
          r := NextIndex(r);
          i := i + 1;
        }
      } else if steps < 0 {
        var i := 0;
        while i < -steps
          invariant 0 <= i <= -steps && r == Backward(index, i)
        {
          r := PrevIndex(r);
          i := i + 1;
        }
      }
      WalkFromInvalid(if steps >= 0 then steps else -steps);
      if Valid() && index.IsSome() && index.Slot() in usedOrder {
        var k := PositionOf(usedOrder, index.Slot());
        WalkAlongUsedChain(k, if steps >= 0 then steps else -steps);
      }
    }

    /** `to_vec`: the forward walk of `Iter` from the first element, collecting every element. */
    method ToVec() returns (r: seq<T>)
      requires Valid()
      ensures r == Elements()
    {
      r := [];
      var cursor := FirstIndex();
      ghost var k := 0;
      var item := Get(cursor);
      while item.Some?
        invariant k <= |usedOrder| && cursor == HandleAt(usedOrder, k)
        invariant item == Get(cursor)
        invariant r == Elements()[..k]
        decreases |usedOrder| - k
      {
        GetOnUsedChain(k);
        StepsOnUsedChain(k);
        r := r + [item.value];
        cursor := NextIndex(cursor);
        k := k + 1;
        item := Get(cursor);
      }
    }

    // ---------------------------------------------------------------------
    // Link helpers

    /** `set_next`: overwrite the `next` link of a slot and return the old one; no-op on the invalid handle. */
    method SetNext(index: Index, newNext: Index) returns (prior: Index)
      requires index.IsSome() ==> index.Slot() < |nodes|
      modifies this`nodes
      ensures nodes == WithNext(old(nodes), index, newNext)
      ensures prior == if index.IsSome() then old(nodes)[index.Slot()].next else index
    {
      match index.Get() {
        case Some(at) =>
          prior := nodes[at].next;
          nodes := nodes[at := nodes[at].(next := newNext)];
        case None =>
          prior := index;
      }
    }

    /** `set_prev`: overwrite the `prev` link of a slot and return the old one; no-op on the invalid handle. */
    method SetPrev(index: Index, newPrev: Index) returns (prior: Index)
      requires index.IsSome() ==> index.Slot() < |nodes|
      modifies this`nodes
      ensures nodes == WithPrev(old(nodes), index, newPrev)
      ensures prior == if index.IsSome() then old(nodes)[index.Slot()].prev else index
    {
      match index.Get() {
        case Some(at) =>
          prior := nodes[at].prev;
          nodes := nodes[at := nodes[at].(prev := newPrev)];
        case None =>
          prior := index;
      }
    }

    /** `linkin_head`: a slot spliced in with no predecessor becomes the head of the used chain. */
    method LinkinHead(prev: Index, node: Index, next: Index)
      requires prev.IsNone() ==> used.head == next
      modifies this`used
      ensures used == if prev.IsNone() then old(used).(head := node) else old(used)
    {
      if prev.IsNone() {
        var oldHead := used.head;
        used := used.(head := node);
        assert oldHead == next;
      }
    }

    /** `linkin_tail`: a slot spliced in with no successor becomes the tail of the used chain. */
    method LinkinTail(prev: Index, node: Index, next: Index)
      requires next.IsNone() ==> used.tail == prev
      modifies this`used
      ensures used == if next.IsNone() then old(used).(tail := node) else old(used)
    {
      if next.IsNone() {
        var oldTail := used.tail;
        used := used.(tail := node);
        assert oldTail == prev;
      }
    }

    /** `insert_elem_at_index`: fill a cell and count it. */
    method InsertElemAtIndex(node: Index, elem: Option<T>)
      requires node.IsSome() ==> node.Slot() < |elems|
      modifies this`elems, this`size
      ensures node.IsNone() ==> elems == old(elems) && size == old(size)
      ensures node.IsSome() ==> elems == old(elems)[node.Slot() := elem] && size == old(size) + 1
    {
      match node.Get() {
        case Some(at) =>
          elems := elems[at := elem];
          size := size + 1;
        case None =>
      }
    }

    /**
     `remove_elem_at_index`: uncount a cell and take its contents. The count
     drops before the cell is looked at, so a handle to a slot that is
     already empty still decrements `size`; callers keep such handles away.
     */
    method RemoveElemAtIndex(node: Index) returns (r: Option<T>)
      requires node.IsSome() ==> node.Slot() < |elems| && size > 0
      modifies this`elems, this`size
      ensures node.IsNone() ==> r.None? && elems == old(elems) && size == old(size)
      ensures node.IsSome() ==>
        && r == old(elems)[node.Slot()]
        && elems == old(elems)[node.Slot() := None]
        && size == old(size) - 1
    {
      match node.Get() {
        case Some(at) =>
          size := size - 1;
          r := elems[at];
          elems := elems[at := None];
        case None =>
          r := None;
      }
    }

    /**
     `linkout_node`: detach the slot at position k of an order, linking its
     neighbours to each other, and return the neighbours.
     */
    method LinkoutNode(node: Index, ghost order: seq<nat>, ghost k: nat) returns (prev: Index, next: Index)
      requires ChainLinks(nodes, order) && k < |order| && node == Index.ForSlot(order[k])
      modifies this`nodes
      ensures prev == HandleAt(order, k - 1) && next == HandleAt(order, k + 1)
      ensures ChainLinks(nodes, RemoveAt(order, k))
      ensures |nodes| == old(|nodes|) && nodes[order[k]] == Detached
      ensures forall i :: 0 <= i < |nodes| && i !in order ==> nodes[i] == old(nodes)[i]
    {
      ghost var n0 := nodes;
      SpliceOut(n0, order, k, node);
      UnlinkOffChain(n0, order, k, node);
      next := SetNext(node, Index.New());
      prev := SetPrev(node, Index.New());
      var oldPrev := SetPrev(next, prev);
      if oldPrev.IsSome() {
        assert oldPrev == node;
      }
      var oldNext := SetNext(prev, next);
      if oldNext.IsSome() {
        assert oldNext == node;
      }
      assert nodes == Unlink(n0, node);
    }

    /** `linkout_used`: take the slot at position k out of the used chain. */
    method LinkoutUsed(node: Index, ghost k: nat)
      requires Linked() && k < |usedOrder| && node == Index.ForSlot(usedOrder[k])
      modifies this`nodes, this`used, this`usedOrder
      ensures Linked()
      ensures usedOrder == RemoveAt(old(usedOrder), k)
      ensures |nodes| == old(|nodes|) && nodes[node.Slot()] == Detached
      ensures forall i :: 0 <= i < |nodes| && i !in old(usedOrder) ==> nodes[i] == old(nodes)[i]
    {
      ghost var n0 := nodes;
      var prev, next := LinkoutNode(node, usedOrder, k);
      if next.IsNone() {
        var oldTail := used.tail;
        used := used.(tail := prev);
        assert oldTail == node;
      }
      if prev.IsNone() {
        var oldHead := used.head;
        used := used.(head := next);
        assert oldHead == node;
      }
      RemoveAtEnds(usedOrder, k);
      ChainFrameOutside(n0, nodes, freeOrder, usedOrder);
      RemoveAtMembers(usedOrder, k);
      usedOrder := RemoveAt(usedOrder, k);
    }

    /** `linkout_free`: take the slot at position k out of the free chain. */
    method LinkoutFree(node: Index, ghost k: nat)
      requires Linked() && k < |freeOrder| && node == Index.ForSlot(freeOrder[k])
      modifies this`nodes, this`free, this`freeOrder
      ensures Linked()
      ensures freeOrder == RemoveAt(old(freeOrder), k)
      ensures |nodes| == old(|nodes|) && nodes[node.Slot()] == Detached
    {
      ghost var n0 := nodes;
      var prev, next := LinkoutNode(node, freeOrder, k);
      if next.IsNone() {
        var oldTail := free.tail;
        free := free.(tail := prev);
        assert oldTail == node;
      }
      if prev.IsNone() {
        var oldHead := free.head;
        free := free.(head := next);
        assert oldHead == node;
      }
      RemoveAtEnds(freeOrder, k);
      ChainFrameOutside(n0, nodes, usedOrder, freeOrder);
      RemoveAtMembers(freeOrder, k);
      freeOrder := RemoveAt(freeOrder, k);
    }

    /** The two link writes of `linkin_first`: `node` in front of `head`. */
    method WriteFirst(node: Index, head: Index)
      requires node.IsSome() && node.Slot() < |nodes| && Names(nodes, head)
      modifies this`nodes
      ensures nodes == LinkFirst(old(nodes), node, head)
    {
      var _ := SetPrev(head, node);
      var _ := SetNext(node, head);
    }

    /** The two link writes of `linkin_last` and `linkin_free`: `node` behind `tail`. */
    method WriteLast(node: Index, tail: Index)
      requires node.IsSome() && node.Slot() < |nodes| && Names(nodes, tail)
      modifies this`nodes
      ensures nodes == LinkLast(old(nodes), node, tail)
    {
      var _ := SetNext(tail, node);
      var _ := SetPrev(node, tail);
    }

    /** `linkin_free`: push an emptied, detached slot at the tail of the free chain. */
    method LinkinFree(node: Index)
      requires Linked()
      requires node.IsSome() && node.Slot() < |nodes|
      requires node.Slot() !in usedOrder && node.Slot() !in freeOrder
      requires nodes[node.Slot()].next.IsNone()
      requires elems[node.Slot()].None?
      modifies this`nodes, this`free, this`freeOrder
      ensures Linked()
      ensures freeOrder == old(freeOrder) + [node.Slot()]
    {
      ghost var n0 := nodes;
      if freeOrder != [] {
        assert freeOrder[|freeOrder| - 1] in freeOrder;
      }
      LinkLastCells(n0, freeOrder, node);
      var prev := free.tail;
      WriteLast(node, prev);
      SpliceAt(n0, freeOrder, |freeOrder|, node, nodes);
      if free.IsEmpty() {
        free := IndexEnds(node, node);
      } else {
        var oldTail := free.tail;
        free := free.(tail := node);
        assert oldTail == prev;
      }
      ghost var a := if prev.IsSome() then freeOrder[|freeOrder| - 1] else node.Slot();
      assert a !in usedOrder by {
        if prev.IsSome() {
          assert freeOrder[|freeOrder| - 1] in freeOrder;
        }
      }
      ChainFrameOff(n0, nodes, usedOrder, a, node.Slot(), node.Slot());
      InsertAtMembers(freeOrder, |freeOrder|, node.Slot());
      assert InsertAt(freeOrder, |freeOrder|, node.Slot()) == freeOrder + [node.Slot()];
      freeOrder := freeOrder + [node.Slot()];
    }

    /** `linkin_first`: splice a detached, filled slot in at the head of the used chain. */
    method LinkinFirst(node: Index)
      requires Linked()
      requires node.IsSome() && node.Slot() < |nodes|
      requires node.Slot() !in usedOrder && node.Slot() !in freeOrder
      requires nodes[node.Slot()].prev.IsNone()
      requires elems[node.Slot()].Some?
      modifies this`nodes, this`used, this`usedOrder
      ensures Linked()
      ensures usedOrder == [node.Slot()] + old(usedOrder)
    {
      ghost var n0 := nodes;
      if usedOrder != [] {
        assert usedOrder[0] in usedOrder;
      }
      LinkFirstCells(n0, usedOrder, node);
      var next := used.head;
      WriteFirst(node, next);
      SpliceAt(n0, usedOrder, 0, node, nodes);
      if used.IsEmpty() {
        used := IndexEnds(node, node);
      } else {
        var oldHead := used.head;
        used := used.(head := node);
        assert oldHead == next;
      }
      ghost var b := if next.IsSome() then usedOrder[0] else node.Slot();
      assert b !in freeOrder by {
        if next.IsSome() {
          assert usedOrder[0] in usedOrder;
        }
      }
      ChainFrameOff(n0, nodes, freeOrder, node.Slot(), b, node.Slot());
      InsertAtMembers(usedOrder, 0, node.Slot());
      assert InsertAt(usedOrder, 0, node.Slot()) == [node.Slot()] + usedOrder;
      usedOrder := [node.Slot()] + usedOrder;
    }

    /** `linkin_last`: splice a detached, filled slot in at the tail of the used chain. */
    method LinkinLast(node: Index)
      requires Linked()
      requires node.IsSome() && node.Slot() < |nodes|
      requires node.Slot() !in usedOrder && node.Slot() !in freeOrder
      requires nodes[node.Slot()].next.IsNone()
      requires elems[node.Slot()].Some?
      modifies this`nodes, this`used, this`usedOrder
      ensures Linked()
      ensures usedOrder == old(usedOrder) + [node.Slot()]
    {
      ghost var n0 := nodes;
      if usedOrder != [] {
        assert usedOrder[|usedOrder| - 1] in usedOrder;
      }
      LinkLastCells(n0, usedOrder, node);
      var prev := used.tail;
      WriteLast(node, prev);
      SpliceAt(n0, usedOrder, |usedOrder|, node, nodes);
      ghost var a := if prev.IsSome() then usedOrder[|usedOrder| - 1] else node.Slot();
      assert a !in freeOrder by {
        if prev.IsSome() {
          assert usedOrder[|usedOrder| - 1] in usedOrder;
        }
      }
      ChainFrameOff(n0, nodes, freeOrder, a, node.Slot(), node.Slot());
      InsertAtMembers(usedOrder, |usedOrder|, node.Slot());
      assert InsertAt(usedOrder, |usedOrder|, node.Slot()) == usedOrder + [node.Slot()];
      if used.IsEmpty() {
        used := IndexEnds(node, node);
      } else {
        var oldTail := used.tail;
        used := used.(tail := node);
        assert oldTail == prev;
      }
      usedOrder := usedOrder + [node.Slot()];
    }

    /**
     The four link writes of `linkin_this_before_that`, in its order; the
     predecessor of `that` must point forward to `that`.
     */
    method WriteBefore(node: Index, that: Index) returns (prev: Index)
      requires node.IsSome() && node.Slot() < |nodes| && that.IsSome() && that.Slot() < |nodes|
      requires Names(nodes, nodes[that.Slot()].prev)
      requires nodes[that.Slot()].prev.IsSome() ==>
        nodes[that.Slot()].prev.Slot() != that.Slot() && nodes[nodes[that.Slot()].prev.Slot()].next == that
      modifies this`nodes
      ensures prev == old(nodes)[that.Slot()].prev
      ensures nodes == LinkBefore(old(nodes), node, that)
    {
      prev := SetPrev(that, node);
      var oldNext := SetNext(prev, node);
      if oldNext.IsSome() {
        assert oldNext == that;
      }
      var _ := SetPrev(node, prev);
      var _ := SetNext(node, that);
    }

    /**
     The four link writes of `linkin_this_after_that`, in its order; the
     successor of `that` must point back to `that`.
     */
    method WriteAfter(node: Index, that: Index) returns (next: Index)
      requires node.IsSome() && node.Slot() < |nodes| && that.IsSome() && that.Slot() < |nodes|
      requires Names(nodes, nodes[that.Slot()].next)
      requires nodes[that.Slot()].next.IsSome() ==>
        nodes[that.Slot()].next.Slot() != that.Slot() && nodes[nodes[that.Slot()].next.Slot()].prev == that
      modifies this`nodes
      ensures next == old(nodes)[that.Slot()].next
      ensures nodes == LinkAfter(old(nodes), node, that)
    {
      next := SetNext(that, node);
      var oldPrev := SetPrev(next, node);
      if oldPrev.IsSome() {
        assert oldPrev == that;
      }
      var _ := SetPrev(node, that);
      var _ := SetNext(node, next);
    }

    /**
     `linkin_this_before_that`: splice a filled slot in just before the k-th
     slot of the used chain. Only the used chain is looked at; the records it
     rewrites are those of `node` and of used slots.
     */
    method LinkinThisBeforeThat(node: Index, that: Index, ghost k: nat)
      requires Chain(nodes, usedOrder, used)
      requires node.IsSome() && node.Slot() < |nodes| && node.Slot() !in usedOrder
      requires node.Slot() < |elems| && elems[node.Slot()].Some?
      requires k < |usedOrder| && that == Index.ForSlot(usedOrder[k])
      requires that.Slot() < |elems| && elems[that.Slot()].Some?
      modifies this`nodes, this`used, this`usedOrder
      ensures Chain(nodes, usedOrder, used)
      ensures usedOrder == InsertAt(old(usedOrder), k, node.Slot())
      ensures |nodes| == old(|nodes|)
      ensures forall i :: 0 <= i < |nodes| && i != node.Slot() && i != old(usedOrder)[k] && (k == 0 || i != old(usedOrder)[k - 1]) ==>
        nodes[i] == old(nodes)[i]
    {
      ghost var n0 := nodes;
      assert n0[usedOrder[k]] == NodeAt(usedOrder, k);
      if k > 0 {
        assert usedOrder[k - 1] in usedOrder && usedOrder[k - 1] != usedOrder[k];
      }
      LinkBeforeCells(n0, usedOrder, k, node, that);
      if k > 0 {
        assert n0[usedOrder[k - 1]] == NodeAt(usedOrder, k - 1);
      }
      var prev := WriteBefore(node, that);
      assert prev == HandleAt(usedOrder, k - 1);
      LinkinHead(prev, node, that);
      SpliceAt(n0, usedOrder, k, node, nodes);
      assert used == EndsOf(InsertAt(usedOrder, k, node.Slot()));
      usedOrder := InsertAt(usedOrder, k, node.Slot());
    }

    /**
     `linkin_this_after_that`: splice a filled slot in just after the k-th
     slot of the used chain. Only the used chain is looked at; the records it
     rewrites are those of `node` and of used slots.
     */
    method LinkinThisAfterThat(node: Index, that: Index, ghost k: nat)
      requires Chain(nodes, usedOrder, used)
      requires node.IsSome() && node.Slot() < |nodes| && node.Slot() !in usedOrder
      requires node.Slot() < |elems| && elems[node.Slot()].Some?
      requires k < |usedOrder| && that == Index.ForSlot(usedOrder[k])
      requires that.Slot() < |elems| && elems[that.Slot()].Some?
      modifies this`nodes, this`used, this`usedOrder
      ensures Chain(nodes, usedOrder, used)
      ensures usedOrder == InsertAt(old(usedOrder), k + 1, node.Slot())
      ensures |nodes| == old(|nodes|)
      ensures forall i :: 0 <= i < |nodes| && i != node.Slot() && i != old(usedOrder)[k] && (k + 1 == old(|usedOrder|) || i != old(usedOrder)[k + 1]) ==>
        nodes[i] == old(nodes)[i]
    {
      ghost var n0 := nodes;
      assert n0[usedOrder[k]] == NodeAt(usedOrder, k);
      if k + 1 < |usedOrder| {
        assert usedOrder[k + 1] in usedOrder && usedOrder[k + 1] != usedOrder[k];
      }
      LinkAfterCells(n0, usedOrder, k, node, that);
      if k + 1 < |usedOrder| {
        assert n0[usedOrder[k + 1]] == NodeAt(usedOrder, k + 1);
      }
      var next := WriteAfter(node, that);
      assert next == HandleAt(usedOrder, k + 1);
      LinkinTail(that, node, next);
      SpliceAt(n0, usedOrder, k + 1, node, nodes);
      assert used == EndsOf(InsertAt(usedOrder, k + 1, node.Slot()));
      usedOrder := InsertAt(usedOrder, k + 1, node.Slot());
    }

    /** `linkin_this_before_that` on a list whose free chain it leaves linked. */
    method LinkinBefore(node: Index, that: Index, ghost k: nat)
      requires Linked()
      requires node.IsSome() && node.Slot() < |nodes|
      requires node.Slot() !in usedOrder && node.Slot() !in freeOrder
      requires elems[node.Slot()].Some?
      requires k < |usedOrder| && that == Index.ForSlot(usedOrder[k]) && elems[that.Slot()].Some?
      modifies this`nodes, this`used, this`usedOrder
      ensures Linked()
      ensures usedOrder == InsertAt(old(usedOrder), k, node.Slot())
    {
      ghost var n0 := nodes;
      ghost var u0 := usedOrder;
      ghost var c := if k > 0 then u0[k - 1] else node.Slot();
      assert u0[k] !in freeOrder && c !in freeOrder by {
        assert u0[k] in u0;
        if k > 0 {
          assert u0[k - 1] in u0;
        }
      }
      LinkinThisBeforeThat(node, that, k);
      ChainFrameOff(n0, nodes, freeOrder, node.Slot(), u0[k], c);
      InsertAtMembers(old(usedOrder), k, node.Slot());
    }

    /** `linkin_this_after_that` on a list whose free chain it leaves linked. */
    method LinkinAfter(node: Index, that: Index, ghost k: nat)
      requires Linked()
      requires node.IsSome() && node.Slot() < |nodes|
      requires node.Slot() !in usedOrder && node.Slot() !in freeOrder
      requires elems[node.Slot()].Some?
      requires k < |usedOrder| && that == Index.ForSlot(usedOrder[k]) && elems[that.Slot()].Some?
      modifies this`nodes, this`used, this`usedOrder
      ensures Linked()
      ensures usedOrder == InsertAt(old(usedOrder), k + 1, node.Slot())
    {
      ghost var n0 := nodes;
      ghost var u0 := usedOrder;
      ghost var c := if k + 1 < |u0| then u0[k + 1] else node.Slot();
      assert u0[k] !in freeOrder && c !in freeOrder by {
        assert u0[k] in u0;
        if k + 1 < |u0| {
          assert u0[k + 1] in u0;
        }
      }
      LinkinThisAfterThat(node, that, k);
      ChainFrameOff(n0, nodes, freeOrder, node.Slot(), u0[k], c);
      InsertAtMembers(old(usedOrder), k + 1, node.Slot());
    }

    /**
     The slot `new_node` filled joins the used chain at the front, which
     restores the invariant.
     */
    method AttachFirst(node: Index)
      requires ValidBut(node)
      modifies this`nodes, this`used, this`usedOrder
      ensures Valid()
      ensures usedOrder == InsertAt(old(usedOrder), 0, node.Slot())
    {
      LinkinFirst(node);
      InsertAtEnds(old(usedOrder), node.Slot());
      PartitionJoin(elems, old(usedOrder), freeOrder, node.Slot(), 0);
    }

    /** The slot `new_node` filled joins the used chain at the back. */
    method AttachLast(node: Index)
      requires ValidBut(node)
      modifies this`nodes, this`used, this`usedOrder
      ensures Valid()
      ensures usedOrder == InsertAt(old(usedOrder), |old(usedOrder)|, node.Slot())
    {
      LinkinLast(node);
      InsertAtEnds(old(usedOrder), node.Slot());
      PartitionJoin(elems, old(usedOrder), freeOrder, node.Slot(), |old(usedOrder)|);
    }

    /** The slot `new_node` filled joins the used chain just before its k-th slot. */
    method AttachBefore(node: Index, that: Index, ghost k: nat)
      requires ValidBut(node)
      requires k < |usedOrder| && that == Index.ForSlot(usedOrder[k])
      modifies this`nodes, this`used, this`usedOrder
      ensures Valid()
      ensures usedOrder == InsertAt(old(usedOrder), k, node.Slot())
    {
      assert usedOrder[k] in usedOrder;
      LinkinBefore(node, that, k);
      PartitionJoin(elems, old(usedOrder), freeOrder, node.Slot(), k);
    }

    /** The slot `new_node` filled joins the used chain just after its k-th slot. */
    method AttachAfter(node: Index, that: Index, ghost k: nat)
      requires ValidBut(node)
      requires k < |usedOrder| && that == Index.ForSlot(usedOrder[k])
      modifies this`nodes, this`used, this`usedOrder
      ensures Valid()
      ensures usedOrder == InsertAt(old(usedOrder), k + 1, node.Slot())
    {
      assert usedOrder[k] in usedOrder;
      LinkinAfter(node, that, k);
      PartitionJoin(elems, old(usedOrder), freeOrder, node.Slot(), k + 1);
    }

    // ---------------------------------------------------------------------
    // Allocation, insertion and removal

    /**
     `new_node`: fill the slot at the head of the free chain when there is
     one, otherwise push a new slot at the end of both vectors. The slot is
     left off both chains, with its links cleared.
     */
    method NewNode(elem: T) returns (node: Index)
      requires Valid()
      requires freeOrder != [] || |elems| < MAX_SLOTS
      modifies this`elems, this`nodes, this`size, this`free, this`freeOrder
      ensures ValidBut(node)
      ensures Filled(old(elems), old(usedOrder), old(freeOrder), old(free.head), node, elem)
    {
      var reuse := free.head;
      if reuse.IsSome() {
        node := FillFreeHead(elem);
      } else {
        node := PushSlot(elem);
      }
    }

    /** The first branch of `new_node`: fill the slot at the head of the free chain and unlink it. */
    method FillFreeHead(elem: T) returns (node: Index)
      requires Valid() && freeOrder != []
      modifies this`elems, this`nodes, this`size, this`free, this`freeOrder
      ensures ValidBut(node)
      ensures Filled(old(elems), old(usedOrder), old(freeOrder), old(free.head), node, elem)
    {
      ghost var f0 := freeOrder;
      assert f0[0] in f0;
      node := free.head;
      InsertElemAtIndex(node, Some(elem));
      LinkoutFree(node, 0);
      DistinctTail(f0);
      PartitionFill(old(elems), usedOrder, f0, elem);
      assert RemoveAt(f0, 0) == f0[1..];
    }

    /** The second branch of `new_node`: push a detached slot holding the element. */
    method PushSlot(elem: T) returns (node: Index)
      requires Valid() && freeOrder == [] && |elems| < MAX_SLOTS
      modifies this`elems, this`nodes, this`size
      ensures ValidBut(node)
      ensures Filled(old(elems), old(usedOrder), old(freeOrder), old(free.head), node, elem)
    {
      var pos := |nodes|;
      nodes := nodes + [Detached];
      elems := elems + [Some(elem)];
      size := size + 1;
      node := Index.FromUsize(pos);
      ChainFrame(old(nodes), nodes, usedOrder);
      ChainFrame(old(nodes), nodes, freeOrder);
      PartitionPush(old(elems), usedOrder, elem);
    }

    /**
     Which slot `new_node` fills, given the cells `e0`, the used chain `u0`,
     the free chain `f0` and its head `head0` before the call: the free-chain
     head, which leaves the chain, when there is one, and otherwise a new slot
     at the end. The slots of the used chain were occupied, the filled one was
     not among them, and no other cell changes.
     */
    ghost predicate Filled(e0: seq<Option<T>>, u0: seq<nat>, f0: seq<nat>, head0: Index, node: Index, elem: T)
      reads this`elems, this`freeOrder
    {
      && node.IsSome()
      && Occupies(e0, u0) && node.Slot() !in u0
      && if f0 != [] then
           && node == head0 && node.Slot() == f0[0] && node.Slot() < |e0|
           && elems == e0[node.Slot() := Some(elem)] && freeOrder == f0[1..]
         else
           && node.Slot() == |e0|
           && elems == e0 + [Some(elem)] && freeOrder == []
    }

    /**
     What an insert promises about the handle it returns, given the length
     `len0`, the cells `e0`, the free chain `f0` and its head `head0` before
     the call: the handle names an occupied slot holding the element, the list
     grew by one, and the slot is the free-chain head when there was one
     (capacity unchanged) or else a new slot at the old capacity. No other
     cell changes.
     */
    ghost predicate AllocatedFrom(len0: nat, e0: seq<Option<T>>, f0: seq<nat>, head0: Index, index: Index, elem: T)
      requires Valid()
      reads this
    {
      && IsIndexUsed(index) && Get(index) == Some(elem)
      && Len() == len0 + 1
      && (if f0 != [] then
            && index == head0 && Capacity() == |e0| && freeOrder == f0[1..]
          else
            && index.IsSome() && index.Slot() == |e0| && Capacity() == |e0| + 1
            && freeOrder == [])
      && forall i :: 0 <= i < |e0| && i != index.Slot() ==> elems[i] == e0[i]
    }

    /** `AllocatedFrom`, measured against the state before the call. */
    twostate predicate Allocated(index: Index, elem: T)
      requires Valid()
      reads this
    {
      AllocatedFrom(old(Len()), old(elems), old(freeOrder), old(free.head), index, elem)
    }

    /**
     A slot filled by `new_node` and spliced into the used chain at position
     k places the element at position k of the list.
     */
    lemma Inserted(e0: seq<Option<T>>, u0: seq<nat>, f0: seq<nat>, head0: Index, index: Index, elem: T, k: nat)
      requires Valid()
      requires Filled(e0, u0, f0, head0, index, elem)
      requires k <= |u0| && usedOrder == InsertAt(u0, k, index.Slot())
      ensures Elements() == InsertAt(ElementsOf(e0, u0), k, elem)
      ensures AllocatedFrom(|u0|, e0, f0, head0, index, elem)
    {
      ElementsOfInsert(e0, elems, u0, k, index.Slot(), elem);
      assert index.Slot() in usedOrder;
    }

    /** `insert_first`: the element goes to the front of the list. */
    method InsertFirst(elem: T) returns (index: Index)
      requires Valid() && Len() < MAX_SLOTS
      modifies this
      ensures Valid()
      ensures Elements() == [elem] + old(Elements())
      ensures Allocated(index, elem)
      ensures usedOrder == [index.Slot()] + old(usedOrder)
    {
      CapacityIsSum();
      index := NewNode(elem);
      AttachFirst(index);
      Inserted(old(elems), old(usedOrder), old(freeOrder), old(free.head), index, elem, 0);
      InsertAtEnds(old(Elements()), elem);
      InsertAtEnds(old(usedOrder), index.Slot());
    }

    /** `insert_last`: the element goes to the back of the list. */
    method InsertLast(elem: T) returns (index: Index)
      requires Valid() && Len() < MAX_SLOTS
      modifies this
      ensures Valid()
      ensures Elements() == old(Elements()) + [elem]
      ensures Allocated(index, elem)
      ensures usedOrder == old(usedOrder) + [index.Slot()]
    {
      CapacityIsSum();
      index := NewNode(elem);
      AttachLast(index);
      Inserted(old(elems), old(usedOrder), old(freeOrder), old(free.head), index, elem, |old(usedOrder)|);
      InsertAtEnds(old(Elements()), elem);
      InsertAtEnds(old(usedOrder), index.Slot());
    }

    /**
     `insert_before`: the element goes directly before the one at `index`, or
     to the front when `index` is invalid. A valid handle must name an
     occupied slot.
     */
    method InsertBefore(index: Index, elem: T) returns (r: Index)
      requires Valid() && Len() < MAX_SLOTS
      requires index.IsNone() || IsIndexUsed(index)
      modifies this
      ensures Valid()
      ensures index.IsNone() ==> Elements() == [elem] + old(Elements())
      ensures index.IsSome() ==> Elements() == InsertAt(old(Elements()), PositionOf(old(usedOrder), index.Slot()), elem)
      ensures Allocated(r, elem)
      ensures index.IsNone() ==> usedOrder == [r.Slot()] + old(usedOrder)
      ensures index.IsSome() ==> usedOrder == InsertAt(old(usedOrder), PositionOf(old(usedOrder), index.Slot()), r.Slot())
    {
      if index.IsNone() {
        r := InsertFirst(elem);
        return;
      }
      CapacityIsSum();
      ghost var before := Elements();
      ghost var k := PositionOf(usedOrder, index.Slot());
      r := NewNode(elem);
      AttachBefore(r, index, k);
      Inserted(old(elems), old(usedOrder), old(freeOrder), old(free.head), r, elem, k);
      assert Elements() == InsertAt(before, k, elem);
    }

    /**
     `insert_after`: the element goes directly after the one at `index`, or
     to the back when `index` is invalid. A valid handle must name an
     occupied slot.
     */
    method InsertAfter(index: Index, elem: T) returns (r: Index)
      requires Valid() && Len() < MAX_SLOTS
      requires index.IsNone() || IsIndexUsed(index)
      modifies this
      ensures Valid()
      ensures index.IsNone() ==> Elements() == old(Elements()) + [elem]
      ensures index.IsSome() ==> Elements() == InsertAt(old(Elements()), PositionOf(old(usedOrder), index.Slot()) + 1, elem)
      ensures Allocated(r, elem)
      ensures index.IsNone() ==> usedOrder == old(usedOrder) + [r.Slot()]
      ensures index.IsSome() ==> usedOrder == InsertAt(old(usedOrder), PositionOf(old(usedOrder), index.Slot()) + 1, r.Slot())
    {
      if index.IsNone() {
        r := InsertLast(elem);
        return;
      }
      CapacityIsSum();
      ghost var before := Elements();
      ghost var k := PositionOf(usedOrder, index.Slot());
      r := NewNode(elem);
      AttachAfter(r, index, k);
      Inserted(old(elems), old(usedOrder), old(freeOrder), old(free.head), r, elem, k + 1);
      assert Elements() == InsertAt(before, k + 1, elem);
    }

    /**
     `remove`: take the element out of an occupied slot, which moves to the
     tail of the free chain; the invalid handle changes nothing. A valid
     handle must name an occupied slot: on an empty one `remove_elem_at_index`
     would still decrement `size`.
     */
    method Remove(index: Index) returns (r: Option<T>)
      requires Valid()
      requires index.IsNone() || IsIndexUsed(index)
      modifies this
      ensures Valid()
      ensures index.IsNone() ==> r.None? && unchanged(this)
      ensures index.IsSome() ==>
        var k := PositionOf(old(usedOrder), index.Slot());
        && r == Some(old(Elements())[k])
        && Elements() == RemoveAt(old(Elements()), k)
        && usedOrder == RemoveAt(old(usedOrder), k)
        && freeOrder == old(freeOrder) + [index.Slot()]
        && elems == old(elems)[index.Slot() := None]
        && Capacity() == old(Capacity()) && Len() == old(Len()) - 1
    {
      ghost var k := if index.IsSome() then PositionOf(usedOrder, index.Slot()) else 0;
      r := RemoveElemAtIndex(index);
      if r.Some? {
        PartitionVacate(old(elems), usedOrder, freeOrder, k);
        Release(index, k);
        ElementsOfRemove(old(elems), elems, old(usedOrder), k);
      }
    }

    /**
     The link work of `remove` once the cell is emptied: the slot at position
     k leaves the used chain and joins the back of the free chain.
     */
    method Release(index: Index, ghost k: nat)
      requires Linked() && k < |usedOrder| && index == Index.ForSlot(usedOrder[k])
      requires elems[index.Slot()].None?
      requires Partition(elems, RemoveAt(usedOrder, k), freeOrder + [usedOrder[k]], -1)
      requires size == |usedOrder| - 1
      modifies this`nodes, this`used, this`usedOrder, this`free, this`freeOrder
      ensures Valid()
      ensures usedOrder == RemoveAt(old(usedOrder), k)
      ensures freeOrder == old(freeOrder) + [index.Slot()]
    {
      assert usedOrder[k] in usedOrder;
      RemoveAtShape(usedOrder, k, |nodes|);
      assert index.Slot() !in RemoveAt(usedOrder, k);
      LinkoutUsed(index, k);
      LinkinFree(index);
    }

    /** `remove_first`: take out the first element; an empty list is left unchanged. */
    method RemoveFirst() returns (r: Option<T>)
      requires Valid()
      modifies this
      ensures Valid()
      ensures old(Elements()) == [] ==> r.None? && unchanged(this)
      ensures old(Elements()) != [] ==>
        && r == Some(old(Elements())[0]) && Elements() == old(Elements())[1..]
        && usedOrder == old(usedOrder)[1..]
        && freeOrder == old(freeOrder) + [old(usedOrder)[0]]
        && elems == old(elems)[old(usedOrder)[0] := None]
        && Capacity() == old(Capacity())
    {
      if usedOrder != [] {
        PositionOfDistinct(usedOrder, 0);
        assert RemoveAt(Elements(), 0) == Elements()[1..];
        assert RemoveAt(usedOrder, 0) == usedOrder[1..];
      }
      r := Remove(FirstIndex());
    }

    /** `remove_last`: take out the last element; an empty list is left unchanged. */
    method RemoveLast() returns (r: Option<T>)
      requires Valid()
      modifies this
      ensures Valid()
      ensures old(Elements()) == [] ==> r.None? && unchanged(this)
      ensures old(Elements()) != [] ==>
        && r == Some(old(Elements())[|old(Elements())| - 1])
        && Elements() == old(Elements())[..|old(Elements())| - 1]
        && usedOrder == old(usedOrder)[..|old(usedOrder)| - 1]
        && freeOrder == old(freeOrder) + [old(usedOrder)[|old(usedOrder)| - 1]]
        && elems == old(elems)[old(usedOrder)[|old(usedOrder)| - 1] := None]
        && Capacity() == old(Capacity())
    {
      if usedOrder != [] {
        PositionOfDistinct(usedOrder, |usedOrder| - 1);
        assert RemoveAt(Elements(), |usedOrder| - 1) == Elements()[..|usedOrder| - 1];
        assert RemoveAt(usedOrder, |usedOrder| - 1) == usedOrder[..|usedOrder| - 1];
      }
      r := Remove(LastIndex());
    }

    // ---------------------------------------------------------------------
    // Trimming

    /** The empty slots at the end are all on the free chain, so there are no more of them than free slots. */
    lemma TrailingFreeBound()
      requires Valid()
      ensures TrailingFree(elems) <= |freeOrder| == Capacity() - Len()
    {
      CapacityIsSum();
      var cap, n := |elems|, TrailingFree(elems);
      FreeRun(elems, cap - n, cap);
      SlotsSplit(elems, 0, cap - n, cap, false);
      SlotsDistinct(elems, 0, cap, false);
      SameElementsSameLength(SlotsWhere(elems, 0, cap, false), freeOrder);
    }

    /**
     `trim_safe`: collect the empty slots at the end, from the last down to
     `len()`, for as long as they are empty; take each off the free chain;
     then truncate both vectors. No occupied slot moves, so every handle in
     use stays valid.
     */
    method TrimSafe()
      requires Valid()
      modifies this`nodes, this`free, this`freeOrder, this`elems
      ensures Valid() && Elements() == old(Elements())
      ensures elems == old(elems)[..old(Capacity()) - TrailingFree(old(elems))]
      ensures freeOrder == Below(old(freeOrder), Capacity())
      ensures TrailingFree(elems) == 0
    {
      TrailingFreeCut(elems);
      var removed := TrailingFreeSlots();
      TrimTo(removed);
    }

    /**
     The first step of `trim_safe`: the slots from `capacity() - 1` down to
     `len()` taken while they are empty. This is exactly the run of empty
     slots at the end.
     */
    method TrailingFreeSlots() returns (removed: seq<nat>)
      requires Valid()
      ensures |removed| == TrailingFree(elems) && TrailingRun(elems, removed)
    {
      TrailingFreeBound();
      var cap := |elems|;
      removed := [];
      var i := cap;
      while i > size && elems[i - 1].None?
        invariant size <= i <= cap && |removed| == cap - i
        invariant forall j :: 0 <= j < |removed| ==> removed[j] == cap - 1 - j
        invariant forall j :: i <= j < cap ==> elems[j].None?
      {
        removed := removed + [i - 1];
        i := i - 1;
      }
    }

    /** The second step of `trim_safe`: `linkout_free` on each collected slot, from the last one down. */
    method UnlinkFreeSlots(removed: seq<nat>)
      requires Linked() && TrailingRun(elems, removed)
      requires forall j :: 0 <= j < |removed| ==> removed[j] in freeOrder
      modifies this`nodes, this`free, this`freeOrder
      ensures Linked()
      ensures freeOrder == Below(old(freeOrder), |elems| - |removed|)
    {
      ghost var f0 := freeOrder;
      BelowAll(f0, |elems|);
      var j := 0;
      ghost var hi := |elems|;
      while j < |removed|
        invariant j <= |removed| && hi == |elems| - j
        invariant Linked() && freeOrder == Below(f0, hi)
      {
        var slot := removed[j];
        assert slot + 1 == hi;
        UnlinkTrailing(slot, f0);
        j, hi := j + 1, slot;
      }
      assert hi == |elems| - |removed|;
    }

    /** `linkout_free` on the highest slot still on the free chain, when the chain holds the slots of f0 below slot + 1. */
    method UnlinkTrailing(slot: nat, ghost f0: seq<nat>)
      requires Linked() && slot in f0 && freeOrder == Below(f0, slot + 1)
      modifies this`nodes, this`free, this`freeOrder
      ensures Linked() && freeOrder == Below(f0, slot)
    {
      ghost var k := PositionOf(freeOrder, slot);
      WithoutIsRemoveAt(freeOrder, k);
      LinkoutFree(Index.FromUsize(slot), k);
      BelowStep(f0, slot);
    }

    /** The last two steps of `trim_safe`: unlink the collected slots from the free chain, then truncate. */
    method TrimTo(removed: seq<nat>)
      requires Valid() && TrailingRun(elems, removed)
      modifies this`nodes, this`free, this`freeOrder, this`elems
      ensures Valid() && Elements() == old(Elements())
      ensures elems == old(elems)[..old(|elems|) - |removed|]
      ensures freeOrder == Below(old(freeOrder), |elems|)
    {
      ghost var f0, es := freeOrder, Elements();
      TrailingRunFree(elems, usedOrder, freeOrder, removed);
      UnlinkFreeSlots(removed);
      Truncate(removed, f0, es);
    }

    /**
     The truncation at the end of `trim_safe`: when slots were collected,
     both vectors are cut to `|elems| - |removed|` slots; every slot from
     there on is empty and already off the free chain.
     */
    method Truncate(removed: seq<nat>, ghost f0: seq<nat>, ghost es: seq<T>)
      requires Linked() && Partition(elems, usedOrder, f0, -1) && size == |usedOrder|
      requires TrailingRun(elems, removed) && freeOrder == Below(f0, |elems| - |removed|)
      requires Occupies(elems, usedOrder) && es == ElementsOf(elems, usedOrder)
      modifies this`nodes, this`elems
      ensures Valid() && Elements() == es
      ensures elems == old(elems)[..old(|elems|) - |removed|]
      ensures freeOrder == Below(f0, |elems|)
    {
      ghost var left := |elems| - |removed|;
      PartitionTruncate(elems, usedOrder, f0, left);
      ChainTruncate(nodes, usedOrder, left);
      assert forall k :: 0 <= k < |freeOrder| ==> freeOrder[k] < left by {
        forall k | 0 <= k < |freeOrder| ensures freeOrder[k] < left {
          assert freeOrder[k] in freeOrder;
        }
      }
      ChainTruncate(nodes, freeOrder, left);
      if removed != [] {
        var left := |elems| - |removed|;
        nodes := nodes[..left];
        elems := elems[..left];
      } else {
        assert elems[..left] == elems && nodes[..left] == nodes;
      }
    }

    /**
     `trim_swap`: with `need` the length, pair the occupied slots at or above
     `need` with the empty slots below it, in increasing order, and move the
     element of each source slot to its destination; then clear the free
     chain and truncate both vectors to `need`. The elements and their order
     stay the same; elements held below `need` keep their slots, so only
     handles at or above the new capacity become invalid.
     */
    method TrimSwap()
      requires Valid()
      modifies this
      ensures Valid()
      ensures Elements() == old(Elements())
      ensures Capacity() == Len() == old(Len()) && freeOrder == []
      ensures |usedOrder| == |old(usedOrder)|
      ensures forall p :: 0 <= p < |usedOrder| && old(usedOrder)[p] < Len() ==> usedOrder[p] == old(usedOrder)[p]
      ensures Len() <= old(Capacity())
      ensures var src, dst := SlotsWhere(old(elems), Len(), |old(elems)|, true), SlotsWhere(old(elems), 0, Len(), false);
        && |src| == |dst|
        && (forall p :: 0 <= p < |usedOrder| ==> old(usedOrder)[p] < Len() || old(usedOrder)[p] in src)
        && (forall p, j :: 0 <= p < |usedOrder| && 0 <= j < |src| && old(usedOrder)[p] == src[j] ==> usedOrder[p] == dst[j])
    {
      CapacityIsSum();
      var need := size;
      var dst := SlotsWhere(elems, 0, need, false);
      var src := SlotsWhere(elems, need, |elems|, true);
      SwapStateInit(elems, usedOrder, freeOrder, need);
      SwapOrderInit(elems, usedOrder, freeOrder, src, dst, need);
      SwapPairs(src, dst, need);
      SwapFinish(need, src, dst);
    }

    /** The moves of `trim_swap`, one per (source, destination) pair, in order. */
    method SwapPairs(src: seq<nat>, dst: seq<nat>, need: nat)
      requires Linked() && size == need == |usedOrder|
      requires SwapState(elems, usedOrder, freeOrder, src, dst, 0, need)
      requires SwapOrder(usedOrder, usedOrder, src, dst, 0, need)
      requires Occupies(elems, usedOrder)
      modifies this`nodes, this`used, this`usedOrder, this`free, this`freeOrder, this`elems
      ensures Linked() && |usedOrder| == need
      ensures SwapState(elems, usedOrder, freeOrder, src, dst, |src|, need)
      ensures Occupies(elems, usedOrder) && ElementsOf(elems, usedOrder) == old(ElementsOf(elems, usedOrder))
      ensures SwapOrder(old(usedOrder), usedOrder, src, dst, |src|, need)
    {
      ghost var u0, e0 := usedOrder, ElementsOf(elems, usedOrder);
      for i := 0 to |src|
        invariant Linked() && |usedOrder| == |u0|
        invariant SwapState(elems, usedOrder, freeOrder, src, dst, i, need)
        invariant Occupies(elems, usedOrder) && ElementsOf(elems, usedOrder) == e0
        invariant SwapOrder(u0, usedOrder, src, dst, i, need)
      {
        SwapPair(src, dst, i, need, u0);
      }
    }

    /**
     The end of `trim_swap`: with every element below `need`, clear the free
     chain and truncate both vectors to `need` slots.
     */
    method SwapFinish(need: nat, ghost src: seq<nat>, ghost dst: seq<nat>)
      requires Linked() && size == need == |usedOrder|
      requires SwapState(elems, usedOrder, freeOrder, src, dst, |src|, need)
      modifies this`nodes, this`elems, this`free, this`freeOrder
      ensures Valid() && |elems| == need && freeOrder == []
      ensures Elements() == old(ElementsOf(elems, usedOrder))
    {
      SwapStateDone(elems, usedOrder, freeOrder, src, dst, need);
      ChainTruncate(nodes, usedOrder, need);
      free := IndexEnds(Index.New(), Index.New());
      freeOrder := [];
      elems := elems[..need];
      nodes := nodes[..need];
    }

    /** One pair of `trim_swap`: the element of `src[i]` moves to `dst[i]`. */
    method SwapPair(src: seq<nat>, dst: seq<nat>, i: nat, need: nat, ghost u0: seq<nat>)
      requires Linked() && i < |src| && |usedOrder| == |u0|
      requires SwapState(elems, usedOrder, freeOrder, src, dst, i, need)
      requires Occupies(elems, usedOrder)
      requires SwapOrder(u0, usedOrder, src, dst, i, need)
      modifies this`nodes, this`used, this`usedOrder, this`free, this`freeOrder, this`elems
      ensures Linked() && |usedOrder| == |u0|
      ensures SwapState(elems, usedOrder, freeOrder, src, dst, i + 1, need)
      ensures Occupies(elems, usedOrder) && ElementsOf(elems, usedOrder) == old(ElementsOf(elems, usedOrder))
      ensures SwapOrder(u0, usedOrder, src, dst, i + 1, need)
    {
      var s, d := src[i], dst[i];
      assert elems[s].Some? && s in usedOrder;
      ghost var ku := PositionOf(usedOrder, s);
      ghost var kf := PositionOf(freeOrder, d);
      SwapStateStep(elems, usedOrder, freeOrder, src, dst, i, need, ku, kf);
      SwapOrderStep(u0, usedOrder, src, dst, i, need, ku);
      ReplaceDestWithSource(s, d, ku, kf);
    }

    /**
     `replace_dest_with_source`: take the empty slot `dst` (position kf of
     the free chain) off the free chain and the occupied slot `src` (position
     ku of the used chain) off the used chain, move the element of `src` to
     `dst`, and link `dst` in where `src` was: before its old successor, else
     after its old predecessor, else as the only slot. `src` is left empty
     and on neither chain.
     */
    method ReplaceDestWithSource(src: nat, dst: nat, ghost ku: nat, ghost kf: nat)
      requires Linked() && Occupies(elems, usedOrder)
      requires ku < |usedOrder| && usedOrder[ku] == src
      requires kf < |freeOrder| && freeOrder[kf] == dst && elems[dst].None?
      modifies this`nodes, this`used, this`usedOrder, this`free, this`freeOrder, this`elems
      ensures Linked() && Occupies(elems, usedOrder)
      ensures usedOrder == old(usedOrder)[ku := dst] && freeOrder == RemoveAt(old(freeOrder), kf)
      ensures elems == old(elems)[dst := old(elems)[src]][src := None]
      ensures ElementsOf(elems, usedOrder) == old(ElementsOf(elems, usedOrder))
    {
      ghost var u0, e0 := usedOrder, elems;
      ElementsOfMove(elems, usedOrder, ku, dst);
      var next, prev := Detach(src, dst, ku, kf);
      elems := elems[dst := elems[src]][src := None];
      Relink(Index.FromUsize(dst), next, prev, u0, ku);
      RemoveInsertAt(u0, ku, dst);
    }

    /** The two link-outs of `replace_dest_with_source`, with the neighbours `src` had on the used chain. */
    method Detach(src: nat, dst: nat, ghost ku: nat, ghost kf: nat) returns (next: Index, prev: Index)
      requires Linked()
      requires ku < |usedOrder| && usedOrder[ku] == src
      requires kf < |freeOrder| && freeOrder[kf] == dst
      modifies this`nodes, this`used, this`usedOrder, this`free, this`freeOrder
      ensures Linked()
      ensures usedOrder == RemoveAt(old(usedOrder), ku) && freeOrder == RemoveAt(old(freeOrder), kf)
      ensures next == HandleAt(old(usedOrder), ku + 1) && prev == HandleAt(old(usedOrder), ku - 1)
      ensures dst < |nodes| && nodes[dst].prev.IsNone() && dst !in old(usedOrder) && dst !in old(freeOrder)[..kf] + old(freeOrder)[kf + 1..]
    {
      ghost var u0 := usedOrder;
      assert src in usedOrder && dst in freeOrder;
      assert nodes[src] == NodeAt(usedOrder, ku);
      LinkoutFree(Index.FromUsize(dst), kf);
      next := nodes[src].next;
      prev := nodes[src].prev;
      LinkoutUsed(Index.FromUsize(src), ku);
    }

    /**
     The link-in that ends `replace_dest_with_source`: `dst` goes before the
     old successor, else after the old predecessor, else in front of an empty
     used chain. Either way it takes position ku.
     */
    method Relink(d: Index, next: Index, prev: Index, ghost u0: seq<nat>, ghost ku: nat)
      requires Linked() && ku < |u0| && usedOrder == RemoveAt(u0, ku) && InSlots(u0, MAX_SLOTS)
      requires next == HandleAt(u0, ku + 1) && prev == HandleAt(u0, ku - 1)
      requires d.IsSome() && d.Slot() < |nodes| && d.Slot() !in usedOrder && d.Slot() !in freeOrder
      requires nodes[d.Slot()].prev.IsNone() && elems[d.Slot()].Some?
      requires Occupies(elems, usedOrder)
      modifies this`nodes, this`used, this`usedOrder
      ensures Linked()
      ensures usedOrder == InsertAt(old(usedOrder), ku, d.Slot())
    {
      if next.IsSome() {
        assert usedOrder[ku] == u0[ku + 1];
        LinkinBefore(d, next, ku);
      } else if prev.IsSome() {
        assert usedOrder[ku - 1] == u0[ku - 1];
        LinkinAfter(d, prev, ku - 1);
      } else {
        assert !(0 <= ku + 1 < |u0|) && !(0 <= ku - 1 < |u0|);
        assert usedOrder == [];
        LinkinFirst(d);
      }
    }

    // ---------------------------------------------------------------------
    // Moving elements between lists

    /**
     A run of slots `u0` that stands at position d of the used chain, with the
     elements it held in the cells `e0` still at those positions of the list,
     still holds the same cells: the handles of those elements are unchanged.
     */
    lemma KeptCells(e0: seq<Option<T>>, u0: seq<nat>, d: nat)
      requires Valid() && Occupies(e0, u0) && d + |u0| <= |usedOrder|
      requires usedOrder[d..d + |u0|] == u0 && Elements()[d..d + |u0|] == ElementsOf(e0, u0)
      ensures forall p :: 0 <= p < |u0| ==> elems[u0[p]] == e0[u0[p]]
    {
      UsedOccupied();
      ElementsOfSegment(elems, usedOrder, e0, u0, d);
    }

    /** `KeptCells` for a run at the front of the used chain, followed by the elements `back`. */
    lemma KeptAhead(e0: seq<Option<T>>, u0: seq<nat>, back: seq<T>)
      requires Valid() && Occupies(e0, u0)
      requires |u0| <= |usedOrder| && usedOrder[..|u0|] == u0
      requires Elements() == ElementsOf(e0, u0) + back
      ensures forall p :: 0 <= p < |u0| ==> elems[u0[p]] == e0[u0[p]]
    {
      assert Elements()[0..|u0|] == ElementsOf(e0, u0);
      KeptCells(e0, u0, 0);
    }

    /** `KeptCells` for a run at the back of the used chain, after the slots `ahead` holding the elements `front`. */
    lemma KeptBehind(e0: seq<Option<T>>, u0: seq<nat>, ahead: seq<nat>, front: seq<T>)
      requires Valid() && Occupies(e0, u0)
      requires usedOrder == ahead + u0
      requires Elements() == front + ElementsOf(e0, u0)
      ensures forall p :: 0 <= p < |u0| ==> u0[p] < |elems| && elems[u0[p]] == e0[u0[p]]
    {
      var d := |front|;
      assert d == |ahead|;
      assert (front + ElementsOf(e0, u0))[d..d + |u0|] == ElementsOf(e0, u0);
      assert (ahead + u0)[d..d + |u0|] == u0;
      KeptCells(e0, u0, d);
    }

    /** The cells of a used chain that is a prefix of an earlier one `u0`, with the elements `e0` it held in the cells `c0`. */
    lemma KeptPrefix(c0: seq<Option<T>>, u0: seq<nat>, e0: seq<T>)
      requires Valid() && Occupies(c0, u0) && e0 == ElementsOf(c0, u0)
      requires |usedOrder| <= |u0| && usedOrder == u0[..|usedOrder|] && Elements() == e0[..|usedOrder|]
      ensures forall p :: 0 <= p < |usedOrder| ==> usedOrder[p] < |c0| && elems[usedOrder[p]] == c0[usedOrder[p]]
    {
      UsedOccupied();
      ElementsOfSegment(c0, u0, elems, usedOrder, 0);
    }

    /**
     `append`: take the elements of `other` from its front and insert each
     at the back of this list, until `other` is empty.
     */
    method Append(other: IndexList<T>)
      requires Valid() && other.Valid() && other != this
      requires Len() + other.Len() <= MAX_SLOTS
      modifies this, other
      ensures Valid() && other.Valid()
      ensures Elements() == old(Elements()) + old(other.Elements())
      ensures other.Elements() == [] && other.Capacity() == old(other.Capacity())
      ensures |old(usedOrder)| <= |usedOrder| && usedOrder[..|old(usedOrder)|] == old(usedOrder)
      ensures forall p :: 0 <= p < |old(usedOrder)| ==> elems[old(usedOrder)[p]] == old(elems)[old(usedOrder)[p]]
    {
      ghost var es, os := Elements(), other.Elements();
      ghost var total := es + os;
      ghost var e0, u0 := elems, usedOrder;
      UsedOccupied();
      assert usedOrder[..|u0|] == u0;
      while true
        invariant Valid() && other.Valid() && other.Capacity() == old(other.Capacity())
        invariant Elements() + other.Elements() == total
        invariant |u0| <= |usedOrder| && usedOrder[..|u0|] == u0
        decreases other.Len()
      {
        var moved := AppendStep(other, u0);
        if !moved {
          break;
        }
      }
      assert Elements() == total;
      KeptAhead(e0, u0, os);
    }

    /** One round of `append`: take the front element of `other`, if any, and insert it at the back of this list. */
    method AppendStep(other: IndexList<T>, ghost u0: seq<nat>) returns (moved: bool)
      requires Valid() && other.Valid() && other != this
      requires Len() + other.Len() <= MAX_SLOTS
      requires |u0| <= |usedOrder| && usedOrder[..|u0|] == u0
      modifies this, other
      ensures Valid() && other.Valid()
      ensures Elements() + other.Elements() == old(Elements() + other.Elements())
      ensures moved <==> old(other.Len()) > 0
      ensures !moved ==> other.Elements() == []
      ensures moved ==> other.Len() < old(other.Len())
      ensures other.Capacity() == old(other.Capacity())
      ensures |u0| <= |usedOrder| && usedOrder[..|u0|] == u0
    {
      ghost var e1, o1 := Elements(), other.Elements();
      var item := other.RemoveFirst();
      moved := item.Some?;
      if moved {
        ghost var u1 := usedOrder;
        var _ := InsertLast(item.value);
        assert Elements() == e1 + [item.value];
        assert usedOrder[..|u0|] == u1[..|u0|];
      }
    }

    /**
     `prepend`: take the elements of `other` from its back and insert each
     at the front of this list, until `other` is empty.
     */
    method Prepend(other: IndexList<T>)
      requires Valid() && other.Valid() && other != this
      requires Len() + other.Len() <= MAX_SLOTS
      modifies this, other
      ensures Valid() && other.Valid()
      ensures Elements() == old(other.Elements()) + old(Elements())
      ensures other.Elements() == [] && other.Capacity() == old(other.Capacity())
      ensures |old(usedOrder)| <= |usedOrder| && usedOrder[|usedOrder| - |old(usedOrder)|..] == old(usedOrder)
      ensures forall p :: 0 <= p < |old(usedOrder)| ==> elems[old(usedOrder)[p]] == old(elems)[old(usedOrder)[p]]
    {
      ghost var es, os := Elements(), other.Elements();
      ghost var total := os + es;
      ghost var e0, u0 := elems, usedOrder;
      ghost var ahead: seq<nat> := [];
      UsedOccupied();
      assert usedOrder == ahead + u0;
      while true
        invariant Valid() && other.Valid() && other.Capacity() == old(other.Capacity())
        invariant other.Elements() + Elements() == total
        invariant usedOrder == ahead + u0
        decreases other.Len()
      {
        var moved := PrependStep(other);
        if !moved {
          break;
        }
        ConsAppend(usedOrder[0], ahead, u0);
        ahead := [usedOrder[0]] + ahead;
      }
      KeptBehind(e0, u0, ahead, os);
    }

    /** One round of `prepend`: take the back element of `other`, if any, and insert it at the front of this list. */
    method PrependStep(other: IndexList<T>) returns (moved: bool)
      requires Valid() && other.Valid() && other != this
      requires Len() + other.Len() <= MAX_SLOTS
      modifies this, other
      ensures Valid() && other.Valid()
      ensures other.Elements() + Elements() == old(other.Elements() + Elements())
      ensures moved <==> old(other.Len()) > 0
      ensures !moved ==> other.Elements() == []
      ensures moved ==> other.Len() < old(other.Len())
      ensures other.Capacity() == old(other.Capacity())
      ensures moved ==> usedOrder != [] && usedOrder == [usedOrder[0]] + old(usedOrder)
      ensures !moved ==> usedOrder == old(usedOrder)
    {
      ghost var e1, o1 := Elements(), other.Elements();
      var item := other.RemoveLast();
      moved := item.Some?;
      if moved {
        var _ := InsertFirst(item.value);
        assert Elements() == [item.value] + e1;
        assert o1 == other.Elements() + [item.value];
        assert other.Elements() + Elements() == o1 + e1;
      }
    }

    /**
     `split`: while `index` is in use, move the last element of this list to
     the front of a new list. The elements from `index` on end up in the new
     list, in order; a handle not in use moves nothing.
     */
    method Split(index: Index) returns (list: IndexList<T>)
      requires Valid()
      modifies this
      ensures fresh(list) && list.Valid() && Valid()
      ensures !old(IsIndexUsed(index)) ==>
        && list.Elements() == [] && Elements() == old(Elements())
        && usedOrder == old(usedOrder)
      ensures old(IsIndexUsed(index)) ==>
        var k := PositionOf(old(usedOrder), index.Slot());
        && Elements() == old(Elements())[..k]
        && list.Elements() == old(Elements())[k..]
        && usedOrder == old(usedOrder)[..k]
      ensures forall p :: 0 <= p < |usedOrder| ==>
        usedOrder[p] < |old(elems)| && elems[usedOrder[p]] == old(elems)[usedOrder[p]]
    {
      CapacityIsSum();
      list := new IndexList();
      ghost var u0, e0, c0 := usedOrder, Elements(), elems;
      UsedOccupied();
      ghost var used0 := IsIndexUsed(index);
      ghost var k := if used0 then PositionOf(usedOrder, index.Slot()) else |usedOrder|;
      assert u0[..|u0|] == u0 && e0[|e0|..] == [];
      while IsIndexUsed(index)
        invariant Valid() && list.Valid() && fresh(list)
        invariant k <= |usedOrder| <= |u0| && usedOrder == u0[..|usedOrder|]
        invariant Elements() == e0[..|usedOrder|] && list.Elements() == e0[|usedOrder|..]
        invariant IsIndexUsed(index) <==> k < |usedOrder|
        decreases |usedOrder|
      {
        SplitStep(list, index, u0, e0, k);
      }
      assert |usedOrder| == k;
      KeptPrefix(c0, u0, e0);
    }

    /** One round of `split`: the last element of this list moves to the front of `list`. */
    method SplitStep(list: IndexList<T>, index: Index, ghost u0: seq<nat>, ghost e0: seq<T>, ghost k: nat)
      requires Valid() && list.Valid() && list != this
      requires k < |usedOrder| <= |u0| && usedOrder == u0[..|usedOrder|]
      requires Distinct(u0) && |e0| == |u0| <= MAX_SLOTS
      requires k < |u0| ==> index.IsSome() && index.Slot() == u0[k]
      requires Elements() == e0[..|usedOrder|] && list.Elements() == e0[|usedOrder|..]
      modifies this, list
      ensures Valid() && list.Valid()
      ensures k <= |usedOrder| < old(|usedOrder|) && usedOrder == u0[..|usedOrder|]
      ensures Elements() == e0[..|usedOrder|] && list.Elements() == e0[|usedOrder|..]
      ensures IsIndexUsed(index) <==> k < |usedOrder|
    {
      var n := |usedOrder|;
      PrefixStep(e0, n);
      PrefixStep(u0, n);
      var item := RemoveLast();
      var _ := list.InsertFirst(item.value);
      if k < |u0| {
        InPrefix(u0, k, n - 1);
      }
    }

    // ---------------------------------------------------------------------
    // Construction from elements

    /**
     `IndexList::from(&mut Vec<T>)`: insert every element of the vector at
     the back of a new list. Slot i holds the i-th element.
     */
    static method From(vec: seq<T>) returns (list: IndexList<T>)
      requires |vec| <= MAX_SLOTS
      ensures fresh(list) && list.Valid()
      ensures list.Elements() == vec && list.freeOrder == []
      ensures list.elems == seq(|vec|, i requires 0 <= i < |vec| => Some(vec[i]))
      ensures forall i :: 0 <= i < |vec| ==> list.usedOrder[i] == i
    {
      list := new IndexList();
      var i := 0;
      while i < |vec|
        invariant i <= |vec| && fresh(list) && list.Valid()
        invariant list.Elements() == vec[..i] && list.freeOrder == []
        invariant list.elems == seq(i, j requires 0 <= j < i => Some(vec[j]))
        invariant forall j :: 0 <= j < i ==> list.usedOrder[j] == j
      {
        var index := list.InsertLast(vec[i]);
        assert index.Slot() == i;
        assert vec[..i + 1] == vec[..i] + [vec[i]];
        i := i + 1;
      }
    }

    /** `From<T>`: a list holding one element, in slot 0. */
    static method FromElem(elem: T) returns (list: IndexList<T>)
      ensures fresh(list) && list.Valid()
      ensures list.Elements() == [elem] && list.elems == [Some(elem)] && list.freeOrder == []
      ensures list.usedOrder == [0]
    {
      list := new IndexList();
      var _ := list.InsertLast(elem);
    }
  }
}
