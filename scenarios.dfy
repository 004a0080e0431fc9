/**
 The doc examples of src/lib.rs, written against the model as client code. Each
 states, as assertions about `Elements()` and the handles, what the example
 asserts about the Rust list (its `to_string()` output becomes the element
 sequence).
 */
module Scenarios {
  import opened Wrappers
  import opened Handles
  import opened Seqs
  import opened Links
  import opened Slots
  import opened IndexLists

  /** `move_index` on A..E: three steps forward reach D, two back reach B, two more leave the list. */
  method MoveIndexExample() {
    var list := IndexList.From(['A', 'B', 'C', 'D', 'E']);
    MoveAlong(list);
  }

  /** The walk of `MoveIndexExample`, on any list holding A..E. */
  method MoveAlong(list: IndexList<char>)
    requires list.Valid() && list.Elements() == ['A', 'B', 'C', 'D', 'E']
  {
    ghost var u := list.usedOrder;
    list.EndsOfUsedChain();
    PositionOfDistinct(u, 0);
    var index := list.MoveIndex(list.FirstIndex(), 3);
    assert index == HandleAt(u, 3);
    list.GetOnUsedChain(3);
    assert list.Get(index) == Some('D');
    PositionOfDistinct(u, 3);
    index := list.MoveIndex(index, -2);
    assert index == HandleAt(u, 1);
    list.GetOnUsedChain(1);
    assert list.Get(index) == Some('B');
    PositionOfDistinct(u, 1);
    index := list.MoveIndex(index, -2);
    assert index.IsNone();
  }

  /** `remove` of the second element of A, B, C gives B back and leaves A, C. */
  method RemoveExample() {
    var list := IndexList.From(["A", "B", "C"]);
    list.EndsOfUsedChain();
    var index := list.FirstIndex();
    list.StepsOnUsedChain(0);
    index := list.NextIndex(index);
    list.GetOnUsedChain(1);
    PositionOfDistinct(list.usedOrder, 1);
    var data := list.Remove(index);
    assert data == Some("B");
    assert list.Elements() == ["A", "C"];
  }

  /** `index_of(2)` on 1, 2, 3 is the handle of slot 1. */
  method IndexOfExample() {
    var list := IndexList.From([1, 2, 3]);
    var index := list.IndexOf(2);
    assert list.elems[1] == Some(2);
    assert index.Slot() == 1;
    assert index == Index.FromU32(1);
  }

  /** `peek_next` from the first of 1, 2, 3 and `peek_prev` from the last both see 2. */
  method PeekExample() {
    var list := IndexList.From([1, 2, 3]);
    list.EndsOfUsedChain();
    list.PeekOnUsedChain(0);
    list.PeekOnUsedChain(2);
    assert list.PeekNext(list.FirstIndex()) == Some(2);
    assert list.PeekPrev(list.LastIndex()) == Some(2);
  }

  /** Removing the last element leaves an empty slot at the end, which `trim_safe` cuts off. */
  method TrimSafeExample() {
    var list := IndexList.From([4, 8, 15, 16, 23, 42]);
    TrimAfterRemoveLast(list);
  }

  /** The removal and trim of `TrimSafeExample`, on a list whose slots 0 to 5 hold 4, 8, 15, 16, 23, 42 in order. */
  method TrimAfterRemoveLast(list: IndexList<int>)
    requires list.Valid() && list.Elements() == [4, 8, 15, 16, 23, 42]
    requires forall i :: 0 <= i < 6 ==> list.usedOrder[i] == i
    modifies list
  {
    ghost var u := list.usedOrder;
    assert u[4] == 4 && u[5] == 5;
    var _ := list.RemoveLast();
    assert list.Len() < list.Capacity();
    assert list.elems[4].Some? && list.elems[5].None?;
    list.TrimSafe();
    list.CapacityIsSum();
    assert list.Len() == list.Capacity();
  }

  /** After `remove_first` the empty slot is at the front; `trim_swap` still brings the capacity down to the length. */
  method TrimSwapExample() {
    var list := IndexList.From([4, 8, 15, 16, 23, 42]);
    var _ := list.RemoveFirst();
    assert list.Len() < list.Capacity();
    list.TrimSwap();
    assert list.Len() == list.Capacity();
    assert list.Elements() == [8, 15, 16, 23, 42];
  }

  /** `append` and `prepend` of 4, 8, 15 and 16, 23, 42 both give 4, 8, 15, 16, 23, 42. */
  method AppendPrependExample() {
    var list := IndexList.From([4, 8, 15]);
    var other := IndexList.From([16, 23, 42]);
    JoinBothWays(list, other, true);
    var back := IndexList.From([16, 23, 42]);
    var front := IndexList.From([4, 8, 15]);
    JoinBothWays(front, back, false);
  }

  /** `append` of 16, 23, 42 to 4, 8, 15, or `prepend` of 4, 8, 15 to 16, 23, 42: either way 4, 8, 15, 16, 23, 42. */
  method JoinBothWays(front: IndexList<int>, back: IndexList<int>, appending: bool)
    requires front.Valid() && back.Valid() && front != back
    requires front.Elements() == [4, 8, 15] && back.Elements() == [16, 23, 42]
    modifies front, back
  {
    if appending {
      front.Append(back);
      assert front.Elements() == [4, 8, 15, 16, 23, 42] && back.Elements() == [];
    } else {
      back.Prepend(front);
      assert back.Elements() == [4, 8, 15, 16, 23, 42] && front.Elements() == [];
    }
  }

  /** `split` at the fourth element of 4, 8, 15, 16, 23, 42 keeps 4, 8, 15 and returns 16, 23, 42. */
  method SplitExample() {
    var list := IndexList.From([4, 8, 15, 16, 23, 42]);
    SplitAtFourth(list);
  }

  /** The split of `SplitExample`, on any list holding 4, 8, 15, 16, 23, 42. */
  method SplitAtFourth(list: IndexList<int>)
    requires list.Valid() && list.Elements() == [4, 8, 15, 16, 23, 42]
    modifies list
  {
    ghost var u, e := list.usedOrder, list.Elements();
    assert e[..3] == [4, 8, 15] && e[3..] == [16, 23, 42];
    list.WalkAlongUsedChain(0, 3);
    list.EndsOfUsedChain();
    var index := list.MoveIndex(list.FirstIndex(), 3);
    assert index == Index.ForSlot(u[3]);
    list.GetOnUsedChain(3);
    PositionOfDistinct(u, 3);
    var other := list.Split(index);
    assert list.Elements() == [4, 8, 15] && other.Elements() == [16, 23, 42];
  }

  /**
   `trim_safe` is idempotent: it leaves no empty slot at the end, and on a
   list with none it changes neither the cells nor either chain, and so
   not the elements either.
   */
  method TrimSafeAgain<T(==)>(list: IndexList<T>)
    requires list.Valid() && TrailingFree(list.elems) == 0
    modifies list
    ensures list.Valid() && list.elems == old(list.elems)
    ensures list.usedOrder == old(list.usedOrder) && list.freeOrder == old(list.freeOrder)
  {
    ghost var e, f := list.elems, list.freeOrder;
    assert forall k :: 0 <= k < |f| ==> f[k] < |e| by {
      forall k | 0 <= k < |f| ensures f[k] < |e| {
        assert f[k] in f;
      }
    }
    BelowAll(f, |e|);
    assert e[..|e| - 0] == e;
    list.TrimSafe();
    assert list.elems == e;
  }
}
