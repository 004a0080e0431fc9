/**
 The link records of the index list (`IndexNode`, `IndexEnds`, src/lib.rs:94-153)
 and what it means for a chain of slots to be threaded through them.

 A chain is described by its order: the sequence of slot numbers from head to
 tail. It is well linked when each slot's `next` and `prev` name its neighbours
 in that order (the invalid handle at either end) and the ends name the first
 and last slot. The used chain and the free chain of a list are both chains
 over the same `nodes` vector.
 */
module Links {
  import opened Handles
  import opened Seqs

  /** The `next`/`prev` handles of one slot. */
  datatype IndexNode = IndexNode(next: Index, prev: Index)

  /** `IndexNode::new()`: a record that names no neighbour. */
  const Detached: IndexNode := IndexNode(Index.New(), Index.New())

  /** The head and tail handles of one chain. */
  datatype IndexEnds = IndexEnds(head: Index, tail: Index) {
    /** `IndexEnds::is_empty`: a chain is empty when it has no head. */
    predicate IsEmpty()
      ensures IsEmpty() <==> head == Index.New()
    {
      head.IsNone()
    }
  }

  /** `IndexEnds::new()`, also what `IndexEnds::clear` restores. */
  const NoEnds: IndexEnds := IndexEnds(Index.New(), Index.New())

  ghost predicate InSlots(order: seq<nat>, n: nat) {
    forall k :: 0 <= k < |order| ==> order[k] < n
  }

  /** The handle of the k-th slot of an order, invalid outside the order. */
  ghost function HandleAt(order: seq<nat>, k: int): Index
    requires InSlots(order, MAX_SLOTS)
  {
    if 0 <= k < |order| then Index.ForSlot(order[k]) else Index.New()
  }

  /** The link record the k-th slot of an order must hold. */
  ghost function NodeAt(order: seq<nat>, k: int): IndexNode
    requires InSlots(order, MAX_SLOTS)
  {
    IndexNode(HandleAt(order, k + 1), HandleAt(order, k - 1))
  }

  /** The ends an order must have. */
  ghost function EndsOf(order: seq<nat>): IndexEnds
    requires InSlots(order, MAX_SLOTS)
  {
    IndexEnds(HandleAt(order, 0), HandleAt(order, |order| - 1))
  }

  /** Every slot of the order is in range, appears once and links to its neighbours. */
  ghost predicate ChainLinks(nodes: seq<IndexNode>, order: seq<nat>) {
    && |nodes| <= MAX_SLOTS
    && InSlots(order, |nodes|)
    && Distinct(order)
    && forall k {:trigger nodes[order[k]]} :: 0 <= k < |order| ==> nodes[order[k]] == NodeAt(order, k)
  }

  ghost predicate Chain(nodes: seq<IndexNode>, order: seq<nat>, ends: IndexEnds) {
    ChainLinks(nodes, order) && ends == EndsOf(order)
  }

  /** A chain only depends on the records of its own slots. */
  lemma ChainFrame(nodes: seq<IndexNode>, nodes': seq<IndexNode>, order: seq<nat>)
    requires ChainLinks(nodes, order)
    requires |nodes'| <= MAX_SLOTS
    requires forall k :: 0 <= k < |order| ==> order[k] < |nodes'| && nodes'[order[k]] == nodes[order[k]]
    ensures ChainLinks(nodes', order)
  {
  }

  /** A chain is not disturbed by rewriting the records of up to three slots that are not on it. */
  lemma ChainFrameOff(nodes: seq<IndexNode>, nodes': seq<IndexNode>, order: seq<nat>, a: nat, b: nat, c: nat)
    requires ChainLinks(nodes, order)
    requires |nodes'| == |nodes| && a !in order && b !in order && c !in order
    requires forall i :: 0 <= i < |nodes| && i != a && i != b && i != c ==> nodes'[i] == nodes[i]
    ensures ChainLinks(nodes', order)
  {
    forall k | 0 <= k < |order| ensures nodes'[order[k]] == nodes[order[k]] {
      assert order[k] in order;
    }
  }

  /** A chain is not disturbed by rewriting records off another order that it shares no slot with. */
  lemma ChainFrameOutside(nodes: seq<IndexNode>, nodes': seq<IndexNode>, order: seq<nat>, other: seq<nat>)
    requires ChainLinks(nodes, order)
    requires |nodes'| == |nodes| && forall x :: x in order ==> x !in other
    requires forall i :: 0 <= i < |nodes| && i !in other ==> nodes'[i] == nodes[i]
    ensures ChainLinks(nodes', order)
  {
    forall k | 0 <= k < |order| ensures nodes'[order[k]] == nodes[order[k]] {
      assert order[k] in order;
    }
  }

  /** Different positions of an order have different handles. */
  lemma HandleAtInjective(order: seq<nat>, j: int, k: int)
    requires InSlots(order, MAX_SLOTS) && Distinct(order)
    requires 0 <= j < |order| && 0 <= k < |order|
    ensures HandleAt(order, j) == HandleAt(order, k) <==> j == k
  {
  }

  /** The sequence facts behind a splice: positions shift by one after k. */
  lemma InsertAtShape(order: seq<nat>, k: nat, s: nat, n: nat)
    requires InSlots(order, n) && Distinct(order)
    requires k <= |order| && s < n && s !in order
    ensures InSlots(InsertAt(order, k, s), n) && Distinct(InsertAt(order, k, s))
  {
    var o := InsertAt(order, k, s);
    forall i, j | 0 <= i < j < |o| ensures o[i] != o[j] {
      if i == k {
        assert o[j] == order[j - 1];
      } else if j == k {
        assert o[i] == order[i];
      } else {
        var i0 := if i < k then i else i - 1;
        var j0 := if j < k then j else j - 1;
        assert o[i] == order[i0] && o[j] == order[j0] && i0 < j0;
      }
    }
  }

  lemma RemoveAtShape(order: seq<nat>, k: nat, n: nat)
    requires InSlots(order, n) && Distinct(order) && k < |order|
    ensures InSlots(RemoveAt(order, k), n) && Distinct(RemoveAt(order, k))
  {
    var o := RemoveAt(order, k);
    forall i, j | 0 <= i < j < |o| ensures o[i] != o[j] {
      var i0 := if i < k then i else i + 1;
      var j0 := if j < k then j else j + 1;
      assert o[i] == order[i0] && o[j] == order[j0] && i0 < j0;
    }
  }

  /** The neighbours of a position after a splice at k. */
  lemma InsertAtHandles(order: seq<nat>, k: nat, s: nat, p: int)
    requires InSlots(order, MAX_SLOTS) && k <= |order| && s < MAX_SLOTS
    ensures InSlots(InsertAt(order, k, s), MAX_SLOTS)
    ensures HandleAt(InsertAt(order, k, s), p) ==
      if p < k then HandleAt(order, p) else if p == k then Index.ForSlot(s) else HandleAt(order, p - 1)
  {
  }

  /** The neighbours of a position after an unlink at k. */
  lemma RemoveAtHandles(order: seq<nat>, k: nat, p: int)
    requires InSlots(order, MAX_SLOTS) && k < |order|
    ensures InSlots(RemoveAt(order, k), MAX_SLOTS)
    ensures HandleAt(RemoveAt(order, k), p) == if p < k then HandleAt(order, p) else HandleAt(order, p + 1)
  {
  }

  /** The premises of a splice of slot s at position k (see LinkIn). */
  ghost predicate Spliced(nodes: seq<IndexNode>, order: seq<nat>, k: nat, s: nat, nodes': seq<IndexNode>)
    requires ChainLinks(nodes, order)
  {
    && k <= |order| && s < |nodes| && s !in order
    && |nodes'| == |nodes|
    && nodes'[s] == IndexNode(HandleAt(order, k), HandleAt(order, k - 1))
    && (k > 0 ==> nodes'[order[k - 1]] == nodes[order[k - 1]].(next := Index.ForSlot(s)))
    && (k < |order| ==> nodes'[order[k]] == nodes[order[k]].(prev := Index.ForSlot(s)))
    && forall j {:trigger nodes'[order[j]]} :: 0 <= j < |order| && j != k - 1 && j != k ==> nodes'[order[j]] == nodes[order[j]]
  }

  lemma LinkInAt(nodes: seq<IndexNode>, order: seq<nat>, k: nat, s: nat, nodes': seq<IndexNode>, p: nat)
    requires ChainLinks(nodes, order) && Spliced(nodes, order, k, s, nodes')
    requires p <= |order|
    ensures InSlots(InsertAt(order, k, s), MAX_SLOTS)
    ensures nodes'[InsertAt(order, k, s)[p]] == NodeAt(InsertAt(order, k, s), p)
  {
    var o := InsertAt(order, k, s);
    InsertAtHandles(order, k, s, p - 1);
    InsertAtHandles(order, k, s, p + 1);
    if p < k {
      assert o[p] == order[p];
      assert nodes[order[p]] == NodeAt(order, p);
    } else if p > k {
      assert o[p] == order[p - 1];
      assert nodes[order[p - 1]] == NodeAt(order, p - 1);
    }
  }

  /**
   Splicing slot s into an order at position k: s gets the neighbours at k - 1
   and k, the slot before it points forward to s, the slot after it points back
   to s, and nothing else changes. This is what `linkin_first`, `linkin_last`,
   `linkin_this_before_that`, `linkin_this_after_that` and `linkin_free` do.
   */
  lemma LinkIn(nodes: seq<IndexNode>, order: seq<nat>, k: nat, s: nat, nodes': seq<IndexNode>)
    requires ChainLinks(nodes, order) && Spliced(nodes, order, k, s, nodes')
    ensures InSlots(InsertAt(order, k, s), MAX_SLOTS)
    ensures ChainLinks(nodes', InsertAt(order, k, s))
    ensures EndsOf(InsertAt(order, k, s)).head == if k == 0 then Index.ForSlot(s) else EndsOf(order).head
    ensures EndsOf(InsertAt(order, k, s)).tail == if k == |order| then Index.ForSlot(s) else EndsOf(order).tail
  {
    var o := InsertAt(order, k, s);
    InsertAtShape(order, k, s, |nodes|);
    forall p | 0 <= p < |o| ensures nodes'[o[p]] == NodeAt(o, p) {
      LinkInAt(nodes, order, k, s, nodes', p);
    }
    InsertAtHandles(order, k, s, 0);
    InsertAtHandles(order, k, s, |order|);
  }

  /** `set_next` on the records: the slot's `next` is replaced; the invalid handle writes nothing. */
  function WithNext(nodes: seq<IndexNode>, index: Index, next: Index): (r: seq<IndexNode>)
    requires index.IsSome() ==> index.Slot() < |nodes|
    ensures |r| == |nodes|
    ensures index.IsSome() ==> r[index.Slot()] == nodes[index.Slot()].(next := next)
    ensures forall i :: 0 <= i < |nodes| && (index.IsNone() || i != index.Slot()) ==> r[i] == nodes[i]
  {
    if index.IsSome() then nodes[index.Slot() := nodes[index.Slot()].(next := next)] else nodes
  }
  /** `set_prev` on the records, the mirror of `WithNext`: the slot's `prev` is replaced; the invalid handle writes nothing. */
  /** `set_prev` on the records: the slot's `prev` is replaced; the invalid handle writes nothing. */
  function WithPrev(nodes: seq<IndexNode>, index: Index, prev: Index): (r: seq<IndexNode>)
    requires index.IsSome() ==> index.Slot() < |nodes|
    ensures |r| == |nodes|
    ensures index.IsSome() ==> r[index.Slot()] == nodes[index.Slot()].(prev := prev)
    ensures forall i :: 0 <= i < |nodes| && (index.IsNone() || i != index.Slot()) ==> r[i] == nodes[i]
  {
    if index.IsSome() then nodes[index.Slot() := nodes[index.Slot()].(prev := prev)] else nodes
  }

  ghost predicate Names(nodes: seq<IndexNode>, index: Index) {
    index.IsSome() ==> index.Slot() < |nodes|
  }

  /** The writes of `linkin_first`: `this` in front of `head`. */
  function LinkFirst(nodes: seq<IndexNode>, node: Index, head: Index): seq<IndexNode>
    requires node.IsSome() && Names(nodes, node) && Names(nodes, head)
  {
    WithNext(WithPrev(nodes, head, node), node, head)
  }

  /** The writes of `linkin_last` and `linkin_free`: `this` behind `tail`. */
  function LinkLast(nodes: seq<IndexNode>, node: Index, tail: Index): seq<IndexNode>
    requires node.IsSome() && Names(nodes, node) && Names(nodes, tail)
  {
    WithPrev(WithNext(nodes, tail, node), node, tail)
  }

  /** The writes of `linkin_this_before_that`: `this` between `that` and its predecessor. */
  function LinkBefore(nodes: seq<IndexNode>, node: Index, that: Index): seq<IndexNode>
    requires node.IsSome() && Names(nodes, node) && that.IsSome() && Names(nodes, that)
    requires Names(nodes, nodes[that.Slot()].prev)
  {
    var prev := nodes[that.Slot()].prev;
    var n1 := WithPrev(nodes, that, node);
    var n2 := WithNext(n1, prev, node);
    WithNext(WithPrev(n2, node, prev), node, that)
  }

  /** The writes of `linkin_this_after_that`: `this` between `that` and its successor. */
  function LinkAfter(nodes: seq<IndexNode>, node: Index, that: Index): seq<IndexNode>
    requires node.IsSome() && Names(nodes, node) && that.IsSome() && Names(nodes, that)
    requires Names(nodes, nodes[that.Slot()].next)
  {
    var next := nodes[that.Slot()].next;
    var n1 := WithNext(nodes, that, node);
    var n2 := WithPrev(n1, next, node);
    WithNext(WithPrev(n2, node, that), node, next)
  }

  /** The writes of `linkout_node`: `this` cleared and its neighbours joined. */
  function Unlink(nodes: seq<IndexNode>, node: Index): seq<IndexNode>
    requires node.IsSome() && Names(nodes, node)
    requires Names(nodes, nodes[node.Slot()].next) && Names(nodes, nodes[node.Slot()].prev)
  {
    var next := nodes[node.Slot()].next;
    var n1 := WithNext(nodes, node, Index.New());
    var prev := n1[node.Slot()].prev;
    var n2 := WithPrev(n1, node, Index.New());
    WithNext(WithPrev(n2, next, prev), prev, next)
  }

  /** The records `linkin_first` rewrites: `this` in front of the first slot of an order, pointing back to nothing. */
  lemma LinkFirstCells(nodes: seq<IndexNode>, order: seq<nat>, node: Index)
    requires |nodes| <= MAX_SLOTS && InSlots(order, |nodes|)
    requires node.IsSome() && node.Slot() < |nodes| && (order == [] || order[0] != node.Slot())
    requires nodes[node.Slot()].prev.IsNone()
    ensures Names(nodes, HandleAt(order, 0))
    ensures |LinkFirst(nodes, node, HandleAt(order, 0))| == |nodes|
    ensures LinkFirst(nodes, node, HandleAt(order, 0))[node.Slot()] == IndexNode(HandleAt(order, 0), HandleAt(order, -1))
    ensures order != [] ==> LinkFirst(nodes, node, HandleAt(order, 0))[order[0]] == nodes[order[0]].(prev := node)
    ensures forall i :: 0 <= i < |nodes| && i != node.Slot() && (order == [] || i != order[0]) ==>
      LinkFirst(nodes, node, HandleAt(order, 0))[i] == nodes[i]
  {
  }

  /** The records `linkin_last` and `linkin_free` rewrite: `this` behind the last slot of an order, pointing on to nothing. */
  lemma LinkLastCells(nodes: seq<IndexNode>, order: seq<nat>, node: Index)
    requires |nodes| <= MAX_SLOTS && InSlots(order, |nodes|)
    requires node.IsSome() && node.Slot() < |nodes| && (order == [] || order[|order| - 1] != node.Slot())
    requires nodes[node.Slot()].next.IsNone()
    ensures Names(nodes, HandleAt(order, |order| - 1))
    ensures |LinkLast(nodes, node, HandleAt(order, |order| - 1))| == |nodes|
    ensures LinkLast(nodes, node, HandleAt(order, |order| - 1))[node.Slot()] == IndexNode(HandleAt(order, |order|), HandleAt(order, |order| - 1))
    ensures order != [] ==>
      LinkLast(nodes, node, HandleAt(order, |order| - 1))[order[|order| - 1]] == nodes[order[|order| - 1]].(next := node)
    ensures forall i :: 0 <= i < |nodes| && i != node.Slot() && (order == [] || i != order[|order| - 1]) ==>
      LinkLast(nodes, node, HandleAt(order, |order| - 1))[i] == nodes[i]
  {
  }

  /**
   The records `linkin_this_before_that` rewrites when `that` is the k-th slot
   of an order: `this` gets `that` and its predecessor as neighbours, those two
   point to `this`, and no other record changes.
   */
  lemma LinkBeforeCells(nodes: seq<IndexNode>, order: seq<nat>, k: nat, node: Index, that: Index)
    requires |nodes| <= MAX_SLOTS && InSlots(order, |nodes|) && k < |order| && that == Index.ForSlot(order[k])
    requires node.IsSome() && node.Slot() < |nodes| && node.Slot() != order[k]
    requires nodes[order[k]].prev == HandleAt(order, k - 1)
    requires k > 0 ==> order[k - 1] != order[k] && order[k - 1] != node.Slot()
    ensures Names(nodes, nodes[that.Slot()].prev)
    ensures |LinkBefore(nodes, node, that)| == |nodes|
    ensures LinkBefore(nodes, node, that)[node.Slot()] == IndexNode(HandleAt(order, k), HandleAt(order, k - 1))
    ensures LinkBefore(nodes, node, that)[order[k]] == nodes[order[k]].(prev := node)
    ensures k > 0 ==> LinkBefore(nodes, node, that)[order[k - 1]] == nodes[order[k - 1]].(next := node)
    ensures forall i :: 0 <= i < |nodes| && i != node.Slot() && i != order[k] && (k == 0 || i != order[k - 1]) ==>
      LinkBefore(nodes, node, that)[i] == nodes[i]
  {
    assert that.Slot() == order[k];
  }

  /**
   The records `linkin_this_after_that` rewrites when `that` is the k-th slot
   of an order: `this` gets `that` and its successor as neighbours, those two
   point to `this`, and no other record changes.
   */
  lemma LinkAfterCells(nodes: seq<IndexNode>, order: seq<nat>, k: nat, node: Index, that: Index)
    requires |nodes| <= MAX_SLOTS && InSlots(order, |nodes|) && k < |order| && that == Index.ForSlot(order[k])
    requires node.IsSome() && node.Slot() < |nodes| && node.Slot() != order[k]
    requires nodes[order[k]].next == HandleAt(order, k + 1)
    requires k + 1 < |order| ==> order[k + 1] != order[k] && order[k + 1] != node.Slot()
    ensures Names(nodes, nodes[that.Slot()].next)
    ensures |LinkAfter(nodes, node, that)| == |nodes|
    ensures LinkAfter(nodes, node, that)[node.Slot()] == IndexNode(HandleAt(order, k + 1), HandleAt(order, k))
    ensures LinkAfter(nodes, node, that)[order[k]] == nodes[order[k]].(next := node)
    ensures k + 1 < |order| ==> LinkAfter(nodes, node, that)[order[k + 1]] == nodes[order[k + 1]].(prev := node)
    ensures forall i :: 0 <= i < |nodes| && i != node.Slot() && i != order[k] && (k + 1 == |order| || i != order[k + 1]) ==>
      LinkAfter(nodes, node, that)[i] == nodes[i]
  {
    assert that.Slot() == order[k];
  }

  /**
   Splicing slot `node` in at position k of a chain, given the records after
   the writes: the slot has the neighbours at k - 1 and k, they point to it,
   and every other record is as before.
   */
  lemma SpliceAt(nodes: seq<IndexNode>, order: seq<nat>, k: nat, node: Index, nodes': seq<IndexNode>)
    requires ChainLinks(nodes, order) && k <= |order|
    requires node.IsSome() && node.Slot() < |nodes| && node.Slot() !in order
    requires |nodes'| == |nodes|
    requires nodes'[node.Slot()] == IndexNode(HandleAt(order, k), HandleAt(order, k - 1))
    requires k > 0 ==> nodes'[order[k - 1]] == nodes[order[k - 1]].(next := node)
    requires k < |order| ==> nodes'[order[k]] == nodes[order[k]].(prev := node)
    requires forall i :: 0 <= i < |nodes| && i != node.Slot() && (k == 0 || i != order[k - 1]) && (k == |order| || i != order[k]) ==>
      nodes'[i] == nodes[i]
    ensures InSlots(InsertAt(order, k, node.Slot()), MAX_SLOTS)
    ensures ChainLinks(nodes', InsertAt(order, k, node.Slot()))
    ensures EndsOf(InsertAt(order, k, node.Slot())).head == if k == 0 then node else EndsOf(order).head
    ensures EndsOf(InsertAt(order, k, node.Slot())).tail == if k == |order| then node else EndsOf(order).tail
  {
    assert node == Index.ForSlot(node.Slot());
    forall j | 0 <= j < |order| && j != k - 1 && j != k ensures nodes'[order[j]] == nodes[order[j]] {
      assert order[j] in order;
      if k > 0 {
        assert order[j] != order[k - 1];
      }
      if k < |order| {
        assert order[j] != order[k];
      }
    }
    LinkIn(nodes, order, k, node.Slot(), nodes');
  }

  /** `linkout_node` takes the k-th slot out of a chain and clears its record. */
  lemma SpliceOut(nodes: seq<IndexNode>, order: seq<nat>, k: nat, node: Index)
    requires ChainLinks(nodes, order) && k < |order| && node == Index.ForSlot(order[k])
    ensures nodes[node.Slot()] == NodeAt(order, k)
    ensures Names(nodes, nodes[node.Slot()].next) && Names(nodes, nodes[node.Slot()].prev)
    ensures ChainLinks(Unlink(nodes, node), RemoveAt(order, k))
    ensures Unlink(nodes, node)[order[k]] == Detached
  {
    assert nodes[order[k]] == NodeAt(order, k);
    var n' := Unlink(nodes, node);
    assert order[k] in order;
    if k > 0 {
      assert order[k - 1] in order && order[k - 1] != order[k];
    }
    if k + 1 < |order| {
      assert order[k + 1] in order && order[k + 1] != order[k];
    }
    forall j | 0 <= j < |order| && j != k - 1 && j != k && j != k + 1 ensures n'[order[j]] == nodes[order[j]] {
      assert order[j] != order[k];
      if k > 0 {
        assert order[j] != order[k - 1];
      }
      if k + 1 < |order| {
        assert order[j] != order[k + 1];
      }
    }
    LinkOutLinks(nodes, order, k, n');
  }

  /** `linkout_node` rewrites only records of slots on the chain: the slot itself and its two neighbours. */
  lemma UnlinkOffChain(nodes: seq<IndexNode>, order: seq<nat>, k: nat, node: Index)
    requires ChainLinks(nodes, order) && k < |order| && node == Index.ForSlot(order[k])
    requires Names(nodes, nodes[node.Slot()].next) && Names(nodes, nodes[node.Slot()].prev)
    ensures forall i :: 0 <= i < |nodes| && i !in order ==> Unlink(nodes, node)[i] == nodes[i]
  {
    assert nodes[order[k]] == NodeAt(order, k);
    assert order[k] in order;
    if k > 0 {
      assert order[k - 1] in order;
    }
    if k + 1 < |order| {
      assert order[k + 1] in order;
    }
  }

  /** Two orders that share no slot. */
  ghost predicate Apart(a: seq<nat>, b: seq<nat>) {
    forall x :: x in a ==> x !in b
  }

  /** The premises of an unlink of the slot at position k (see LinkOut). */
  ghost predicate Unlinked(nodes: seq<IndexNode>, order: seq<nat>, k: nat, nodes': seq<IndexNode>)
    requires ChainLinks(nodes, order)
  {
    && k < |order|
    && |nodes'| == |nodes|
    && (k > 0 ==> nodes'[order[k - 1]] == nodes[order[k - 1]].(next := HandleAt(order, k + 1)))
    && (k + 1 < |order| ==> nodes'[order[k + 1]] == nodes[order[k + 1]].(prev := HandleAt(order, k - 1)))
    && forall j {:trigger nodes'[order[j]]} :: 0 <= j < |order| && j != k - 1 && j != k && j != k + 1 ==> nodes'[order[j]] == nodes[order[j]]
  }

  /**
   The record of the p-th slot left after an unlink at k: it is the record the
   slot had at position q of the old order, with the link that skipped the
   removed slot rewritten.
   */
  lemma LinkOutAt(order: seq<nat>, k: nat, p: nat, before: IndexNode, after: IndexNode)
    requires InSlots(order, MAX_SLOTS) && k < |order| && p < |order| - 1
    requires before == NodeAt(order, if p < k then p else p + 1)
    requires after == if p == k - 1 then before.(next := HandleAt(order, k + 1))
      else if p == k then before.(prev := HandleAt(order, k - 1))
      else before
    ensures InSlots(RemoveAt(order, k), MAX_SLOTS)
    ensures after == NodeAt(RemoveAt(order, k), p)
  {
    RemoveAtHandles(order, k, p - 1);
    RemoveAtHandles(order, k, p + 1);
  }

  /**
   Unlinking the slot at position k of an order: its neighbours are linked to
   each other and no other slot of the order changes. This is what
   `linkout_node` does, inside `linkout_used` and `linkout_free`.
   */
  lemma LinkOut(nodes: seq<IndexNode>, order: seq<nat>, k: nat, nodes': seq<IndexNode>)
    requires ChainLinks(nodes, order) && Unlinked(nodes, order, k, nodes')
    ensures ChainLinks(nodes', RemoveAt(order, k))
    ensures EndsOf(RemoveAt(order, k)).head == if k == 0 then HandleAt(order, 1) else EndsOf(order).head
    ensures EndsOf(RemoveAt(order, k)).tail == if k == |order| - 1 then HandleAt(order, k - 1) else EndsOf(order).tail
  {
    LinkOutLinks(nodes, order, k, nodes');
    RemoveAtEnds(order, k);
  }

  /** The ends of an order after the slot at position k is taken out. */
  lemma RemoveAtEnds(order: seq<nat>, k: nat)
    requires InSlots(order, MAX_SLOTS) && k < |order|
    ensures InSlots(RemoveAt(order, k), MAX_SLOTS)
    ensures EndsOf(RemoveAt(order, k)).head == if k == 0 then HandleAt(order, 1) else EndsOf(order).head
    ensures EndsOf(RemoveAt(order, k)).tail == if k == |order| - 1 then HandleAt(order, k - 1) else EndsOf(order).tail
  {
    RemoveAtHandles(order, k, 0);
    RemoveAtHandles(order, k, |order| - 2);
  }

  lemma LinkOutLinks(nodes: seq<IndexNode>, order: seq<nat>, k: nat, nodes': seq<IndexNode>)
    requires ChainLinks(nodes, order) && Unlinked(nodes, order, k, nodes')
    ensures ChainLinks(nodes', RemoveAt(order, k))
  {
    var o := RemoveAt(order, k);
    RemoveAtShape(order, k, |nodes|);
    forall p | 0 <= p < |o| ensures nodes'[o[p]] == NodeAt(o, p) {
      var q := if p < k then p else p + 1;
      assert o[p] == order[q];
      assert nodes[order[q]] == NodeAt(order, q);
      LinkOutAt(order, k, p, nodes[order[q]], nodes'[order[q]]);
    }
  }

  /** A chain whose slots are all below `left` survives cutting the records to `left`. */
  lemma ChainTruncate(nodes: seq<IndexNode>, order: seq<nat>, left: nat)
    requires ChainLinks(nodes, order) && left <= |nodes|
    requires forall k :: 0 <= k < |order| ==> order[k] < left
    ensures ChainLinks(nodes[..left], order)
  {
    ChainFrame(nodes, nodes[..left], order);
  }
}
