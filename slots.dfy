/**
 Views of the element vector `elems: Vec<Option<T>>` of an index list
 (src/lib.rs:162-168): the elements found along an order of slots, the first
 slot holding a given element, the slots that are occupied or empty in a
 range, and the run of empty slots at the end.
 */
module Slots {
  import opened Wrappers
  import opened Seqs

  /**
   Every slot except `but` is occupied exactly when it is on the order `used`
   and empty exactly when it is on the order `free`.
   */
  ghost predicate Partition<T>(elems: seq<Option<T>>, used: seq<nat>, free: seq<nat>, but: int) {
    forall i {:trigger elems[i]} :: 0 <= i < |elems| && i != but ==>
      (elems[i].Some? <==> i in used) && (elems[i].None? <==> i in free)
  }

  /** Filling the first slot of the free order and dropping it from the order. */
  lemma PartitionFill<T>(elems: seq<Option<T>>, used: seq<nat>, free: seq<nat>, x: T)
    requires Partition(elems, used, free, -1) && free != [] && Distinct(free) && free[0] < |elems|
    ensures Partition(elems[free[0] := Some(x)], used, free[1..], free[0])
  {
    assert free == [free[0]] + free[1..];
    var e := elems[free[0] := Some(x)];
    forall i | 0 <= i < |e| && i != free[0] ensures (e[i].Some? <==> i in used) && (e[i].None? <==> i in free[1..]) {
      assert e[i] == elems[i];
      assert i in free <==> i in free[1..];
    }
  }

  /** Pushing a filled slot at the end when no slot is free. */
  lemma PartitionPush<T>(elems: seq<Option<T>>, used: seq<nat>, x: T)
    requires Partition(elems, used, [], -1)
    ensures Partition(elems + [Some(x)], used, [], |elems|)
  {
    var e := elems + [Some(x)];
    forall i | 0 <= i < |e| && i != |elems| ensures (e[i].Some? <==> i in used) && (e[i].None? <==> i in []) {
      assert e[i] == elems[i];
    }
  }

  /** The filled slot `s` joins the used order anywhere. */
  lemma PartitionJoin<T>(elems: seq<Option<T>>, used: seq<nat>, free: seq<nat>, s: nat, k: nat)
    requires Partition(elems, used, free, s) && s < |elems| && elems[s].Some? && s !in free && k <= |used|
    ensures Partition(elems, InsertAt(used, k, s), free, -1)
  {
    InsertAtMembers(used, k, s);
  }

  /** Emptying the k-th slot of the used order and moving it to the back of the free order. */
  lemma PartitionVacate<T>(elems: seq<Option<T>>, used: seq<nat>, free: seq<nat>, k: nat)
    requires Partition(elems, used, free, -1) && Distinct(used) && k < |used| && used[k] < |elems|
    ensures Partition(elems[used[k] := None], RemoveAt(used, k), free + [used[k]], -1)
  {
    WithoutIsRemoveAt(used, k);
    var e := elems[used[k] := None];
    forall i | 0 <= i < |e| ensures (e[i].Some? <==> i in RemoveAt(used, k)) && (e[i].None? <==> i in free + [used[k]]) {
      if i != used[k] {
        assert e[i] == elems[i];
      }
    }
  }

  /** Every slot of the order is in range and occupied. */
  ghost predicate Occupies<T>(elems: seq<Option<T>>, order: seq<nat>) {
    forall k :: 0 <= k < |order| ==> order[k] < |elems| && elems[order[k]].Some?
  }

  /** The elements held by the slots of an order, in that order. */
  ghost function ElementsOf<T>(elems: seq<Option<T>>, order: seq<nat>): (r: seq<T>)
    requires Occupies(elems, order)
    ensures |r| == |order|
  {
    seq(|order|, k requires 0 <= k < |order| => elems[order[k]].value)
  }

  /** Placing an element in slot s and splicing s into the order at k places the element at k. */
  lemma ElementsOfInsert<T>(elems: seq<Option<T>>, elems': seq<Option<T>>, order: seq<nat>, k: nat, s: nat, x: T)
    requires Occupies(elems, order) && k <= |order|
    requires s < |elems'| && elems'[s] == Some(x)
    requires forall j :: 0 <= j < |order| ==> order[j] < |elems'| && elems'[order[j]] == elems[order[j]]
    ensures Occupies(elems', InsertAt(order, k, s))
    ensures ElementsOf(elems', InsertAt(order, k, s)) == InsertAt(ElementsOf(elems, order), k, x)
  {
    var o := InsertAt(order, k, s);
    assert Occupies(elems', o) by {
      forall p | 0 <= p < |o| ensures o[p] < |elems'| && elems'[o[p]].Some? {
        if p != k {
          assert o[p] == order[if p < k then p else p - 1];
        }
      }
    }
    var a := ElementsOf(elems', o);
    var b := InsertAt(ElementsOf(elems, order), k, x);
    forall p | 0 <= p < |a| ensures a[p] == b[p] {
      if p < k {
        assert o[p] == order[p];
      } else if p > k {
        assert o[p] == order[p - 1];
      }
    }
  }

  /** Taking the slot at position k out of the order takes its element out of the sequence. */
  lemma ElementsOfRemove<T>(elems: seq<Option<T>>, elems': seq<Option<T>>, order: seq<nat>, k: nat)
    requires Occupies(elems, order) && k < |order|
    requires forall j :: 0 <= j < |order| && j != k ==> order[j] < |elems'| && elems'[order[j]] == elems[order[j]]
    ensures Occupies(elems', RemoveAt(order, k))
    ensures ElementsOf(elems', RemoveAt(order, k)) == RemoveAt(ElementsOf(elems, order), k)
  {
    var o := RemoveAt(order, k);
    assert Occupies(elems', o) by {
      forall p | 0 <= p < |o| ensures o[p] < |elems'| && elems'[o[p]].Some? {
        assert o[p] == order[if p < k then p else p + 1];
      }
    }
    var a := ElementsOf(elems', o);
    var b := RemoveAt(ElementsOf(elems, order), k);
    forall p | 0 <= p < |a| ensures a[p] == b[p] {
      assert o[p] == order[if p < k then p else p + 1];
    }
  }

  /** Moving the element of the slot at position k to slot d, which takes its place in the order. */
  lemma ElementsOfReplace<T>(elems: seq<Option<T>>, elems': seq<Option<T>>, order: seq<nat>, k: nat, d: nat)
    requires Occupies(elems, order) && k < |order|
    requires d < |elems'| && elems'[d] == elems[order[k]]
    requires forall j :: 0 <= j < |order| && j != k ==> order[j] < |elems'| && elems'[order[j]] == elems[order[j]]
    ensures Occupies(elems', order[k := d])
    ensures ElementsOf(elems', order[k := d]) == ElementsOf(elems, order)
  {
  }

  /**
   Moving the element of the slot at position k to the empty slot d, and
   emptying the old slot: the rest of the order stays occupied, and with d in
   place of the old slot the elements are the same.
   */
  lemma ElementsOfMove<T>(elems: seq<Option<T>>, order: seq<nat>, k: nat, d: nat)
    requires Occupies(elems, order) && Distinct(order) && k < |order|
    requires d < |elems| && elems[d].None?
    ensures var e := elems[d := elems[order[k]]][order[k] := None];
      && e[d].Some?
      && Occupies(e, RemoveAt(order, k))
      && Occupies(e, order[k := d])
      && ElementsOf(e, order[k := d]) == ElementsOf(elems, order)
  {
    var e := elems[d := elems[order[k]]][order[k] := None];
    assert d != order[k];
    forall j | 0 <= j < |order| && j != k ensures order[j] < |e| && e[order[j]] == elems[order[j]] {
      assert order[j] != order[k];
    }
    ElementsOfReplace(elems, e, order, k, d);
  }

  /** The elements along an order only depend on the cells of its slots. */
  lemma ElementsOfFrame<T>(elems: seq<Option<T>>, elems': seq<Option<T>>, order: seq<nat>)
    requires Occupies(elems, order)
    requires forall j :: 0 <= j < |order| ==> order[j] < |elems'| && elems'[order[j]] == elems[order[j]]
    ensures Occupies(elems', order)
    ensures ElementsOf(elems', order) == ElementsOf(elems, order)
  {
  }

  /**
   Two lists whose orders share a run of slots, and whose elements agree along
   that run, hold the same cells in those slots: the elements pin the cells.
   */
  lemma ElementsOfSegment<T>(elems: seq<Option<T>>, order: seq<nat>, elems': seq<Option<T>>, order': seq<nat>, d: nat)
    requires Occupies(elems, order) && Occupies(elems', order') && d + |order'| <= |order|
    requires order[d..d + |order'|] == order'
    requires ElementsOf(elems, order)[d..d + |order'|] == ElementsOf(elems', order')
    ensures forall p :: 0 <= p < |order'| ==> elems[order'[p]] == elems'[order'[p]]
  {
    forall p | 0 <= p < |order'| ensures elems[order'[p]] == elems'[order'[p]] {
      assert order'[p] == order[d + p];
      assert ElementsOf(elems, order)[d + p] == ElementsOf(elems', order')[p];
    }
  }

  /**
   The first slot that holds `elem`, the search `index_of` runs over the cells
   in slot order (src/lib.rs:520-525).
   */
  function FirstHolding<T(==)>(elems: seq<Option<T>>, elem: T): (r: Option<nat>)
    ensures r.Some? ==> r.value < |elems| && elems[r.value] == Some(elem)
    ensures r.Some? ==> forall j :: 0 <= j < r.value ==> elems[j] != Some(elem)
    ensures r.None? <==> Some(elem) !in elems
  {
    if elems == [] then None
    else if elems[0] == Some(elem) then Some(0)
    else match FirstHolding(elems[1..], elem)
      case Some(p) => Some(p + 1)
      case None => None
  }

  /** The slots in lo .. hi that are occupied (or empty), in increasing order. */
  function SlotsWhere<T>(elems: seq<Option<T>>, lo: nat, hi: nat, occupied: bool): (r: seq<nat>)
    requires lo <= hi <= |elems|
    ensures forall x :: x in r <==> lo <= x < hi && elems[x].Some? == occupied
    ensures forall i, j :: 0 <= i < j < |r| ==> r[i] < r[j]
    decreases hi - lo
  {
    if lo == hi then []
    else
      var rest := SlotsWhere(elems, lo + 1, hi, occupied);
      if elems[lo].Some? == occupied then
        assert forall j :: 0 <= j < |rest| ==> lo < rest[j] by {
          forall j | 0 <= j < |rest| ensures lo < rest[j] {
            assert rest[j] in rest;
          }
        }
        [lo] + rest
      else rest
  }

  lemma SlotsDistinct<T>(elems: seq<Option<T>>, lo: nat, hi: nat, occupied: bool)
    requires lo <= hi <= |elems|
    ensures Distinct(SlotsWhere(elems, lo, hi, occupied))
  {
    var r := SlotsWhere(elems, lo, hi, occupied);
    assert forall i, j :: 0 <= i < j < |r| ==> r[i] < r[j];
  }

  /** Every slot of a range is either occupied or empty. */
  lemma {:induction false} SlotsCount<T>(elems: seq<Option<T>>, lo: nat, hi: nat)
    requires lo <= hi <= |elems|
    ensures |SlotsWhere(elems, lo, hi, true)| + |SlotsWhere(elems, lo, hi, false)| == hi - lo
    decreases hi - lo
  {
    if lo < hi {
      SlotsCount(elems, lo + 1, hi);
    }
  }

  /** The slots of lo .. hi are those of lo .. mid followed by those of mid .. hi. */
  lemma {:induction false} SlotsSplit<T>(elems: seq<Option<T>>, lo: nat, mid: nat, hi: nat, occupied: bool)
    requires lo <= mid <= hi <= |elems|
    ensures SlotsWhere(elems, lo, hi, occupied) == SlotsWhere(elems, lo, mid, occupied) + SlotsWhere(elems, mid, hi, occupied)
    decreases mid - lo
  {
    if lo < mid {
      SlotsSplit(elems, lo + 1, mid, hi, occupied);
      var a := SlotsWhere(elems, lo + 1, mid, occupied);
      var b := SlotsWhere(elems, mid, hi, occupied);
      if elems[lo].Some? == occupied {
        assert [lo] + (a + b) == ([lo] + a) + b;
      }
    } else {
      assert SlotsWhere(elems, lo, mid, occupied) == [];
    }
  }

  /**
   The number of empty slots at the end of the vector: the run that
   `trim_safe` can cut off (src/lib.rs:700-713).
   */
  function TrailingFree<T>(elems: seq<Option<T>>): (n: nat)
    ensures n <= |elems|
    ensures forall i :: |elems| - n <= i < |elems| ==> elems[i].None?
    ensures n < |elems| ==> elems[|elems| - n - 1].Some?
  {
    if elems == [] || elems[|elems| - 1].Some? then 0
    else 1 + TrailingFree(elems[..|elems| - 1])
  }

  /** `removed` lists the last |removed| slots, from the last one down, and each of them is empty. */
  ghost predicate TrailingRun<T>(elems: seq<Option<T>>, removed: seq<nat>) {
    && |removed| <= |elems|
    && (forall j :: 0 <= j < |removed| ==> removed[j] == |elems| - 1 - j)
    && (forall x :: |elems| - |removed| <= x < |elems| ==> elems[x].None?)
  }

  /** The slots of a run of empty slots at the end are all on the free order. */
  lemma TrailingRunFree<T>(elems: seq<Option<T>>, used: seq<nat>, free: seq<nat>, removed: seq<nat>)
    requires Partition(elems, used, free, -1) && TrailingRun(elems, removed)
    ensures forall j :: 0 <= j < |removed| ==> removed[j] in free
  {
    forall j | 0 <= j < |removed| ensures removed[j] in free {
      assert elems[removed[j]].None?;
    }
  }

  /** Once the run of empty slots at the end is cut off, none is left. */
  lemma TrailingFreeCut<T>(elems: seq<Option<T>>)
    ensures TrailingFree(elems[..|elems| - TrailingFree(elems)]) == 0
  {
    var n := TrailingFree(elems);
    if n < |elems| {
      assert elems[..|elems| - n][|elems| - n - 1] == elems[|elems| - n - 1];
    }
  }

  /** A range of empty slots has all of its slots among the empty ones. */
  lemma {:induction false} FreeRun<T>(elems: seq<Option<T>>, lo: nat, hi: nat)
    requires lo <= hi <= |elems|
    requires forall j :: lo <= j < hi ==> elems[j].None?
    ensures |SlotsWhere(elems, lo, hi, false)| == hi - lo
    decreases hi - lo
  {
    if lo < hi {
      FreeRun(elems, lo + 1, hi);
    }
  }

  /**
   Cutting the vector to `left` cells when every cell from `left` on is empty:
   no occupied slot is lost, the free order keeps only its slots below `left`,
   and the elements along the used order are the same.
   */
  lemma PartitionTruncate<T>(elems: seq<Option<T>>, used: seq<nat>, free: seq<nat>, left: nat)
    requires Partition(elems, used, free, -1) && left <= |elems|
    requires forall j :: 0 <= j < |used| ==> used[j] < |elems|
    requires forall j :: left <= j < |elems| ==> elems[j].None?
    ensures forall j :: 0 <= j < |used| ==> used[j] < left
    ensures Partition(elems[..left], used, Below(free, left), -1)
    ensures Occupies(elems, used) && Occupies(elems[..left], used)
    ensures ElementsOf(elems[..left], used) == ElementsOf(elems, used)
  {
    forall j | 0 <= j < |used| ensures used[j] < left && elems[used[j]].Some? {
      assert used[j] in used;
      assert elems[used[j]].Some?;
    }
    var e := elems[..left];
    forall i | 0 <= i < left ensures (e[i].Some? <==> i in used) && (e[i].None? <==> i in Below(free, left)) {
      assert e[i] == elems[i];
    }
    ElementsOfFrame(elems, e, used);
  }

  /**
   The state of `trim_swap` (src/lib.rs:734-758) after the first i of its
   pairs: `src` lists the occupied slots at or above `need`, `dst` the empty
   slots below it. The pairs from i on are still to be moved, every occupied
   slot at or above `need` and every empty slot below it is among them, and a
   slot is occupied exactly when it is on the used order.
   */
  ghost predicate SwapState<T>(elems: seq<Option<T>>, used: seq<nat>, free: seq<nat>, src: seq<nat>, dst: seq<nat>, i: nat, need: nat) {
    && i <= |src| == |dst| && need <= |elems|
    && Distinct(used) && Distinct(src) && Distinct(dst)
    && (forall k :: 0 <= k < |used| ==> used[k] < |elems|)
    && (forall x {:trigger elems[x]} :: 0 <= x < |elems| ==> (elems[x].Some? <==> x in used))
    && (forall j :: i <= j < |src| ==> need <= src[j] < |elems| && elems[src[j]].Some?)
    && (forall j :: i <= j < |dst| ==> dst[j] < need && elems[dst[j]].None? && dst[j] in free)
    && (forall x {:trigger elems[x]} :: need <= x < |elems| && elems[x].Some? ==> x in src[i..])
    && (forall x {:trigger elems[x]} :: 0 <= x < need && elems[x].None? ==> x in dst[i..])
  }

  /**
   Before the first move: with `need` the number of occupied slots, there are
   as many occupied slots at or above `need` as empty slots below it.
   */
  lemma SwapStateInit<T>(elems: seq<Option<T>>, used: seq<nat>, free: seq<nat>, need: nat)
    requires Partition(elems, used, free, -1) && Distinct(used)
    requires |used| == need <= |elems| && forall k :: 0 <= k < |used| ==> used[k] < |elems|
    ensures SwapState(elems, used, free, SlotsWhere(elems, need, |elems|, true), SlotsWhere(elems, 0, need, false), 0, need)
  {
    var src, dst := SlotsWhere(elems, need, |elems|, true), SlotsWhere(elems, 0, need, false);
    SwapCounts(elems, used, need);
    SlotsDistinct(elems, need, |elems|, true);
    SlotsDistinct(elems, 0, need, false);
    assert src[0..] == src && dst[0..] == dst;
    forall j | 0 <= j < |dst| ensures dst[j] < need && elems[dst[j]].None? && dst[j] in free {
      assert dst[j] in dst;
    }
    forall j | 0 <= j < |src| ensures need <= src[j] < |elems| && elems[src[j]].Some? {
      assert src[j] in src;
    }
  }

  /** With `need` the number of occupied slots, as many are occupied at or above `need` as are empty below it. */
  lemma SwapCounts<T>(elems: seq<Option<T>>, used: seq<nat>, need: nat)
    requires Distinct(used) && |used| == need <= |elems|
    requires forall x {:trigger elems[x]} :: 0 <= x < |elems| ==> (elems[x].Some? <==> x in used)
    requires forall k :: 0 <= k < |used| ==> used[k] < |elems|
    ensures |SlotsWhere(elems, need, |elems|, true)| == |SlotsWhere(elems, 0, need, false)|
  {
    var all := SlotsWhere(elems, 0, |elems|, true);
    SlotsDistinct(elems, 0, |elems|, true);
    forall x ensures x in all <==> x in used {
      if x in used {
        var k :| 0 <= k < |used| && used[k] == x;
      }
    }
    SameElementsSameLength(all, used);
    SlotsSplit(elems, 0, need, |elems|, true);
    SlotsCount(elems, 0, need);
  }

  /** Moving the element of `src[i]` to `dst[i]`, where `dst[i]` takes the place of `src[i]` in the used order. */
  lemma SwapStateStep<T>(elems: seq<Option<T>>, used: seq<nat>, free: seq<nat>, src: seq<nat>, dst: seq<nat>, i: nat, need: nat, ku: nat, kf: nat)
    requires SwapState(elems, used, free, src, dst, i, need) && i < |src| && Distinct(free)
    requires ku < |used| && used[ku] == src[i] && kf < |free| && free[kf] == dst[i]
    ensures SwapState(elems[dst[i] := elems[src[i]]][src[i] := None], used[ku := dst[i]], RemoveAt(free, kf), src, dst, i + 1, need)
  {
    var s, d := src[i], dst[i];
    var e, f := elems[d := elems[s]][s := None], RemoveAt(free, kf);
    WithoutIsRemoveAt(free, kf);
    SwapUsedStep(elems, used, s, d, ku);
    forall j | i + 1 <= j < |src| ensures need <= src[j] < |e| && e[src[j]].Some? {
      assert src[j] != s && src[j] != d;
    }
    forall j | i + 1 <= j < |dst| ensures dst[j] < need && e[dst[j]].None? && dst[j] in f {
      assert dst[j] != d && dst[j] != s;
    }
    forall x | need <= x < |e| && e[x].Some? ensures x in src[i + 1..] {
      assert x != s && x != d && e[x] == elems[x];
      var j :| i <= j < |src| && src[j] == x;
      assert src[i + 1..][j - i - 1] == x;
    }
    forall x | 0 <= x < need && e[x].None? ensures x in dst[i + 1..] {
      assert x != d && x != s && e[x] == elems[x];
      var j :| i <= j < |dst| && dst[j] == x;
      assert dst[i + 1..][j - i - 1] == x;
    }
  }

  /** The occupied slots still match the used order once the element of `s` moves to `d` and `d` replaces `s` in it. */
  lemma SwapUsedStep<T>(elems: seq<Option<T>>, used: seq<nat>, s: nat, d: nat, ku: nat)
    requires Distinct(used) && ku < |used| && used[ku] == s
    requires s < |elems| && d < |elems| && elems[s].Some? && elems[d].None?
    requires forall x {:trigger elems[x]} :: 0 <= x < |elems| ==> (elems[x].Some? <==> x in used)
    requires forall k :: 0 <= k < |used| ==> used[k] < |elems|
    ensures var e, u := elems[d := elems[s]][s := None], used[ku := d];
      && Distinct(u)
      && (forall x {:trigger e[x]} :: 0 <= x < |e| ==> (e[x].Some? <==> x in u))
      && (forall k :: 0 <= k < |u| ==> u[k] < |e|)
  {
    var e, u := elems[d := elems[s]][s := None], used[ku := d];
    assert d !in used;
    assert Distinct(u) by {
      forall a, b | 0 <= a < b < |u| ensures u[a] != u[b] {
        if a != ku && b != ku {
          assert u[a] == used[a] && u[b] == used[b];
        } else if a == ku {
          assert used[b] in used;
        } else {
          assert used[a] in used;
        }
      }
    }
    forall x | 0 <= x < |e| ensures e[x].Some? <==> x in u {
      if x in used && x != s {
        var k :| 0 <= k < |used| && used[k] == x;
        assert u[k] == x;
      }
      if x in u && x != d {
        var k :| 0 <= k < |u| && u[k] == x;
        assert k != ku && used[k] == x;
        assert x != s;
      }
      if x == s {
        assert x !in u by {
          forall k | 0 <= k < |u| ensures u[k] != s {
            if k != ku {
              assert used[k] != used[ku];
            }
          }
        }
      }
      assert u[ku] == d;
    }
    forall k | 0 <= k < |u| ensures u[k] < |e| {
      if k != ku {
        assert u[k] == used[k];
      }
    }
  }

  /**
   How the used order `u` of `trim_swap` relates to the order `u0` it
   started from, after the first i pairs: slots below `need` stay where they
   were, `src[j]` has been replaced by `dst[j]` for each moved pair, and the
   sources still to be moved are on `u0` and still in place.
   */
  ghost predicate SwapOrder(u0: seq<nat>, u: seq<nat>, src: seq<nat>, dst: seq<nat>, i: nat, need: nat) {
    && |u| == |u0| && i <= |src| <= |dst| && Distinct(u0)
    && (forall j :: i <= j < |src| ==> src[j] in u0)
    && (forall p :: 0 <= p < |u0| && u0[p] < need ==> u[p] == u0[p])
    && (forall p, j :: 0 <= p < |u0| && 0 <= j < i && u0[p] == src[j] ==> u[p] == dst[j])
    && (forall p, j :: 0 <= p < |u0| && i <= j < |src| && u0[p] == src[j] ==> u[p] == u0[p])
  }

  /**
   Before the first move: nothing has moved, and every slot of the used
   order is below `need` or one of the sources.
   */
  lemma SwapOrderInit<T>(elems: seq<Option<T>>, used: seq<nat>, free: seq<nat>, src: seq<nat>, dst: seq<nat>, need: nat)
    requires SwapState(elems, used, free, src, dst, 0, need)
    ensures SwapOrder(used, used, src, dst, 0, need)
    ensures forall p :: 0 <= p < |used| ==> used[p] < need || used[p] in src
  {
    forall j | 0 <= j < |src| ensures src[j] in used {
      assert elems[src[j]].Some?;
    }
    forall p | 0 <= p < |used| ensures used[p] < need || used[p] in src {
      assert used[p] in used;
      assert elems[used[p]].Some?;
      assert src[0..] == src;
    }
  }

  /** The i-th move replaces `src[i]`, at position ku of the used order, by `dst[i]`. */
  lemma SwapOrderStep(u0: seq<nat>, u: seq<nat>, src: seq<nat>, dst: seq<nat>, i: nat, need: nat, ku: nat)
    requires SwapOrder(u0, u, src, dst, i, need) && i < |src|
    requires Distinct(u) && Distinct(src) && need <= src[i]
    requires ku < |u| && u[ku] == src[i]
    ensures SwapOrder(u0, u[ku := dst[i]], src, dst, i + 1, need)
  {
    var p0 :| 0 <= p0 < |u0| && u0[p0] == src[i];
    assert u[p0] == u0[p0];
    assert p0 == ku;
    var u' := u[ku := dst[i]];
    forall p, j | 0 <= p < |u0| && 0 <= j < i + 1 && u0[p] == src[j] ensures u'[p] == dst[j] {
      if j < i {
        assert src[j] != src[i];
        assert p != ku;
      } else {
        assert p == ku;
      }
    }
    forall p, j | 0 <= p < |u0| && i + 1 <= j < |src| && u0[p] == src[j] ensures u'[p] == u0[p] {
      assert src[i] != src[j];
      assert p != ku;
    }
  }

  /**
   After the last move every occupied slot is below `need` and every slot
   below it is occupied, so cutting the vector to `need` cells keeps every
   element and leaves no empty slot.
   */
  lemma SwapStateDone<T>(elems: seq<Option<T>>, used: seq<nat>, free: seq<nat>, src: seq<nat>, dst: seq<nat>, need: nat)
    requires SwapState(elems, used, free, src, dst, |src|, need)
    ensures forall k :: 0 <= k < |used| ==> used[k] < need
    ensures Partition(elems[..need], used, [], -1)
    ensures Occupies(elems, used) && Occupies(elems[..need], used)
    ensures ElementsOf(elems[..need], used) == ElementsOf(elems, used)
  {
    assert src[|src|..] == [] && dst[|dst|..] == [];
    forall k | 0 <= k < |used| ensures used[k] < need && elems[used[k]].Some? {
      assert used[k] in used;
      assert elems[used[k]].Some?;
    }
    var e := elems[..need];
    forall x | 0 <= x < need ensures (e[x].Some? <==> x in used) && (e[x].None? <==> x in []) {
      assert e[x] == elems[x];
    }
    ElementsOfFrame(elems, e, used);
  }
}
