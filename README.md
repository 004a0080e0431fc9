# index_list in Dafny

A model of the Rust crate `index_list` (src/lib.rs). Its `IndexList<T>` is a
doubly-linked list kept in a slot arena, with proofs about that model.

The list has two vectors of the same length:

- `elems: Vec<Option<T>>`, the element cells;
- `nodes: Vec<IndexNode>`, the `next`/`prev` link of each slot.

Two chains are threaded through the same link records:

- the *used* chain holds the occupied slots, in list order;
- the *free* chain holds the empty slots, in the order they were freed.

Each chain has head and tail handles (`IndexEnds`), and `size` counts the
elements. A handle (`Index`) wraps an `Option<NonZeroU32>` that stores
slot + 1, so the zero value means "no slot".

## Layout

| file | holds |
|---|---|
| `wrappers.dfy` | `Option` |
| `handles.dfy` | `Index`, its encoding and its `From` conversions |
| `seqs.dfy` | sequence helpers for the orders of slot numbers |
| `links.dfy` | `IndexNode`, `IndexEnds`, the predicate saying that a chain is well linked along a given order |
| `slots.dfy` | views of the cell vector: elements along an order, occupied and empty slots, the trailing empty run, the state of `trim_swap` |
| `index_list.dfy` | the class `IndexList` with the public and private operations |
| `scenarios.dfy` | the source's doc examples, written as client code |

## How the model works

`IndexList` is a class whose fields match the Rust struct. Two ghost fields,
`usedOrder` and `freeOrder`, list the slots of each chain from head to tail.

`Valid()` is the representation invariant. It says:

- the two vectors have the same length;
- each chain is linked along its order: `prev` mirrors `next`, and the ends name the first and last slot;
- the two chains share no slot;
- a slot is occupied exactly when it is on the used chain, and empty exactly when it is on the free chain;
- `size` is the length of the used chain.

`Elements()` is the sequence of elements met along the used chain. Every
public mutator keeps `Valid()` and states its effect on `Elements()`. Beyond
that, each states as much of the new state as follows:

- the four inserts give the new used order, with the new slot at its position. They also say which slot `new_node` took (the free head, or a new slot at the old capacity), the new free order, and that no other cell changed;
- `remove`, `remove_first` and `remove_last` give the new used order, the new free order (the slot appended at the tail) and the new cell vector (only that cell emptied);
- `append` and `prepend` keep the receiving list's used order as a prefix or a suffix of the new one, and keep every one of its cells. They do not say which slots the moved elements take, nor what the receiving list's free order becomes;
- `split` keeps the first k slots of the used order, with their cells unchanged. It does not say which slots the new list uses;
- `trim_safe` and `trim_swap` state the new cell vector, both orders and the elements. For `trim_swap` this includes the slot each moved element lands in: the j-th occupied slot at or above the length goes to the j-th empty slot below it.

The read functions are stated against the same view: the used order, or
`Elements()`.

The Rust helpers `set_next`, `set_prev`, `linkin_*` and `linkout_*` are methods
that rewrite `nodes` and the chain ends in place, in the source's order of
writes. Rust's `debug_assert`s become proof obligations: the `assert`s at the
points where the link writes return their old value.

## Model

| member | source | states |
|---|---|---|
| `Handles.Index.New` | src/lib.rs:22-25 | `Index::new()` is the invalid handle: it is the handle of no slot below u32::MAX |
| `Handles.Index.IsSome` | src/lib.rs:27-32 | a handle is valid exactly when it is not invalid |
| `Handles.Index.IsNone` | src/lib.rs:33-40 | a handle is invalid exactly when it is `Index::new()` |
| `Handles.Index.Get` | src/lib.rs:42-44 | a handle decodes to a slot exactly when it is valid, and re-encoding that slot gives the same handle |
| `Handles.Index.Set` | src/lib.rs:46-57 | `n as u32 + 1` with the wrapping add of a release build: slot `n mod 2^32` for every residue below u32::MAX; the residue u32::MAX and `None` give the invalid handle |
| `Handles.Index.FromU32` | src/lib.rs:60-64 | every u32 below u32::MAX gets the handle that decodes to it; u32::MAX gets the invalid handle |
| `Handles.Index.FromU64` | src/lib.rs:66-70 | values below u32::MAX round-trip. Every other value is truncated to its residue mod 2^32: a residue below u32::MAX gives the handle of that slot, and u32::MAX gives the invalid handle |
| `Handles.Index.FromUsize` | src/lib.rs:72-76 | a position below u32::MAX becomes the handle of that slot. Every other position is truncated to its residue mod 2^32: a residue below u32::MAX gives the handle of that slot, and u32::MAX gives the invalid handle |
| `Handles.Index.FromOption` | src/lib.rs:78-82 | `None` gives the invalid handle. `Some(n)` with n below u32::MAX gives the handle of slot n; any other n is truncated mod 2^32, with the same two outcomes as `FromUsize` |
| `Handles.GetSetRoundTrip` | src/lib.rs:42-57 | `set(get(h)) == h` for every handle, invalid ones included |
| `Handles.SlotInjective` | src/lib.rs:18-19 | two valid handles are equal exactly when they name the same slot |
| `Links.IndexEnds.IsEmpty` | src/lib.rs:136-139 | a chain's ends are empty exactly when its head is the invalid handle |
| `Links.WithNext` | src/lib.rs:852-858 | `set_next` on the records: only the named slot's `next` changes; the invalid handle changes nothing |
| `Links.WithPrev` | src/lib.rs:844-850 | `set_prev` on the records: only the named slot's `prev` changes; the invalid handle changes nothing |
| `Slots.FirstHolding` | src/lib.rs:522-524 | the `position` search of `index_of`: the lowest slot whose cell holds the element, and `None` exactly when no cell does |
| `Slots.SlotsWhere` | src/lib.rs:737-749 | the `dst`/`src` filters of `trim_swap`: exactly the occupied (or empty) slots of a range, strictly increasing |
| `Slots.TrailingFree` | src/lib.rs:701-704 | the length of the run of empty cells at the end: all of them are empty, and the cell before the run is occupied |
| `Slots.TrailingFreeCut` | src/lib.rs:700-713 | cutting off the trailing empty run leaves no trailing empty cell |
| `Slots.SwapOrderInit` | src/lib.rs:735-749 | before the moves of `trim_swap`, every slot of the used chain is below `len` or one of the sources |
| `Slots.SwapOrderStep` | src/lib.rs:750-753 | the i-th move replaces the i-th source by the i-th destination in the used order and leaves every other position alone |
| `IndexLists.IndexList.constructor` | src/lib.rs:185-193 | `new`: a valid list with no slots and no elements |
| `IndexLists.IndexList.Clear` | src/lib.rs:235-241 | `clear`: a valid list with no slots, no elements and an empty free chain |
| `IndexLists.IndexList.CapacityIsSum` | src/lib.rs:194-224 | `capacity` (the length of the cell vector) equals the length of the used chain plus that of the free chain, since every slot is on exactly one; and len ≤ capacity ≤ u32::MAX |
| `IndexLists.IndexList.Len` | src/lib.rs:221-224 | on a valid list, `len` (the `size` counter) is the length of the used chain |
| `IndexLists.IndexList.IsEmpty` | src/lib.rs:250-253 | on a valid list, `is_empty` holds exactly when the used chain has no slot |
| `IndexLists.IndexList.IsEmptyIffLenZero` | src/lib.rs:242-253 | `is_empty` (no used head) holds exactly when `len() == 0` and exactly when there are no elements |
| `IndexLists.IndexList.NextIndex` | src/lib.rs:299-306 | `next_index` gives the invalid handle for an invalid or out-of-range handle, and indexes no vector out of range |
| `IndexLists.IndexList.PrevIndex` | src/lib.rs:323-330 | `prev_index` gives the invalid handle for an invalid or out-of-range handle, and indexes no vector out of range |
| `IndexLists.IndexList.FirstIndex` | src/lib.rs:267-270 | on a valid list, `first_index` is the handle of the first slot of the used chain, invalid when there is none |
| `IndexLists.IndexList.LastIndex` | src/lib.rs:279-282 | on a valid list, `last_index` is the handle of the last slot of the used chain, invalid when there is none |
| `IndexLists.IndexList.EndsOfUsedChain` | src/lib.rs:268-282 | `first_index`/`last_index` are the handles of the first and last element, and are invalid exactly when the list is empty |
| `IndexLists.IndexList.StepsOnUsedChain` | src/lib.rs:299-330 | from the k-th element, `next_index`/`prev_index` give the (k±1)-th element's handle, or the invalid handle past an end |
| `IndexLists.IndexList.StepsOnFreeChain` | src/lib.rs:299-330 | occupancy is not checked: from a free slot, navigation follows the free chain |
| `IndexLists.IndexList.NextPrevInverse` | src/lib.rs:299-330 | on the used chain, `prev_index(next_index(h)) == h` and `next_index(prev_index(h)) == h` whenever the inner step is valid |
| `IndexLists.IndexList.Get` | src/lib.rs:401-404 | `get` gives the cell of an in-range valid handle and `None` otherwise; the `usize::MAX` default lies beyond every vector |
| `IndexLists.IndexList.GetMut` | src/lib.rs:444-452 | on a valid list, the cell `get_mut` exposes is the one `get` reads |
| `IndexLists.IndexList.GetMutIsGet` | src/lib.rs:445-452 | the capacity-checked lookup of `get_mut` reads the same cell as `get` |
| `IndexLists.IndexList.IsIndexUsed` | src/lib.rs:256-258 | on a valid list, `is_index_used(h)` holds exactly when h is valid and its slot is on the used chain |
| `IndexLists.IndexList.GetOnUsedChain` | src/lib.rs:401-404 | the handle of the k-th slot of the used chain is in use and gives the k-th element |
| `IndexLists.IndexList.GetFirst` | src/lib.rs:375-378 | on a valid list, `get_first` is the first element, `None` when the list is empty |
| `IndexLists.IndexList.GetLast` | src/lib.rs:387-390 | on a valid list, `get_last` is the last element, `None` when the list is empty |
| `IndexLists.IndexList.GetMutFirst` | src/lib.rs:415-418 | on a valid list, `get_mut_first` exposes the element `get_first` gives |
| `IndexLists.IndexList.GetMutLast` | src/lib.rs:429-432 | on a valid list, `get_mut_last` exposes the element `get_last` gives |
| `IndexLists.IndexList.GetFirstLast` | src/lib.rs:376-390 | `get_first`/`get_mut_first` give the first element and `get_last`/`get_mut_last` the last, `None` on an empty list |
| `IndexLists.IndexList.PeekNext` | src/lib.rs:468-470 | from a handle in use at position k, `peek_next` is the (k+1)-th element, `None` from the last |
| `IndexLists.IndexList.PeekPrev` | src/lib.rs:486-488 | from a handle in use at position k, `peek_prev` is the (k−1)-th element, `None` from the first |
| `IndexLists.IndexList.PeekOnUsedChain` | src/lib.rs:468-488 | `peek_next`/`peek_prev` from the k-th element give the (k±1)-th element, `None` past an end |
| `IndexLists.IndexList.Contains` | src/lib.rs:502-506 | `contains(x)` holds exactly when `index_of(x)` finds a slot |
| `IndexLists.IndexList.ContainsIffInElements` | src/lib.rs:503-506 | `contains(x)` (some cell is `Some(x)`) holds exactly when x is an element of the list |
| `IndexLists.IndexList.IndexOf` | src/lib.rs:520-525 | `index_of(x)` is valid exactly when some cell holds x, and then names the lowest such slot |
| `IndexLists.IndexList.IndexOfFindsElement` | src/lib.rs:507-525 | `index_of(x)` is valid exactly when x is in the list, and then the handle is in use and `get` gives x |
| `IndexLists.IndexList.WalkFromInvalid` | src/lib.rs:331-366 | once a walk is off the list it stays off: repeated steps from the invalid handle stay invalid |
| `IndexLists.IndexList.WalkAlongUsedChain` | src/lib.rs:331-366 | n forward steps from the k-th element reach the (k+n)-th element, n backward steps the (k−n)-th, and the invalid handle past either end |
| `IndexLists.IndexList.MoveIndex` | src/lib.rs:354-366 | `move_index` folds `next_index` `steps` times or `prev_index` `-steps` times; it returns the handle for 0 steps; an invalid handle stays invalid; from the k-th element it reaches the (k+steps)-th element or the invalid handle |
| `IndexLists.IndexList.ToVec` | src/lib.rs:651-667 | `to_vec` (the forward walk of `Iter`) collects exactly the elements, in order |
| `IndexLists.IndexList.SetNext` | src/lib.rs:852-858 | `set_next` rewrites one `next` link and returns the old one; on the invalid handle it returns that handle and writes nothing |
| `IndexLists.IndexList.SetPrev` | src/lib.rs:844-850 | `set_prev` rewrites one `prev` link and returns the old one; on the invalid handle it returns that handle and writes nothing |
| `IndexLists.IndexList.LinkinHead` | src/lib.rs:867-872 | a slot linked in with no predecessor becomes the used head; otherwise the ends are unchanged |
| `IndexLists.IndexList.LinkinTail` | src/lib.rs:860-865 | a slot linked in with no successor becomes the used tail; otherwise the ends are unchanged |
| `IndexLists.IndexList.InsertElemAtIndex` | src/lib.rs:874-879 | a valid handle's cell is overwritten and `size` grows by one; the invalid handle changes nothing |
| `IndexLists.IndexList.RemoveElemAtIndex` | src/lib.rs:881-888 | a valid handle's cell is taken (left `None`) and `size` drops by one; the invalid handle gives `None` and changes nothing |
| `IndexLists.IndexList.LinkoutNode` | src/lib.rs:961-969 | `linkout_node` returns the slot's neighbours in its chain, joins them, leaves the chain linked without the slot and the slot detached, and changes no record off the chain |
| `IndexLists.IndexList.LinkoutUsed` | src/lib.rs:970-980 | the slot leaves the used chain at its position, the ends are updated, and records off the used chain are unchanged |
| `IndexLists.IndexList.LinkoutFree` | src/lib.rs:981-991 | the slot leaves the free chain at its position, the ends are updated, and the slot is left detached |
| `IndexLists.IndexList.WriteFirst` | src/lib.rs:917-918 | the two link writes of `linkin_first` |
| `IndexLists.IndexList.WriteLast` | src/lib.rs:929-930 | the two link writes of `linkin_last`, which `linkin_free` repeats at 905-906 |
| `IndexLists.IndexList.LinkinFree` | src/lib.rs:902-913 | the free chain is a FIFO: the emptied slot is appended at the tail |
| `IndexLists.IndexList.LinkinFirst` | src/lib.rs:914-925 | the filled slot becomes the first of the used chain, and both chains stay linked |
| `IndexLists.IndexList.LinkinLast` | src/lib.rs:926-937 | the filled slot becomes the last of the used chain, and both chains stay linked |
| `IndexLists.IndexList.WriteBefore` | src/lib.rs:942-946 | the four link writes of `linkin_this_before_that`, in source order, which return the old predecessor of `that` |
| `IndexLists.IndexList.WriteAfter` | src/lib.rs:953-957 | the four link writes of `linkin_this_after_that`, in source order, which return the old successor of `that` |
| `IndexLists.IndexList.LinkinThisBeforeThat` | src/lib.rs:939-948 | the slot enters the used chain just before position k; only its own record and those of the two neighbours change |
| `IndexLists.IndexList.LinkinThisAfterThat` | src/lib.rs:950-959 | the slot enters the used chain just after position k; only its own record and those of the two neighbours change |
| `IndexLists.IndexList.LinkinBefore` | src/lib.rs:939-948 | as `LinkinThisBeforeThat`, and the free chain stays linked |
| `IndexLists.IndexList.LinkinAfter` | src/lib.rs:950-959 | as `LinkinThisAfterThat`, and the free chain stays linked |
| `IndexLists.IndexList.AttachFirst` | src/lib.rs:538-539 | after `new_node`, linking the slot in first restores `Valid()` with the slot at position 0 |
| `IndexLists.IndexList.AttachLast` | src/lib.rs:554-555 | after `new_node`, linking the slot in last restores `Valid()` with the slot at the end |
| `IndexLists.IndexList.AttachBefore` | src/lib.rs:573-574 | after `new_node`, linking the slot in before the k-th restores `Valid()` with the slot at position k |
| `IndexLists.IndexList.AttachAfter` | src/lib.rs:592-593 | after `new_node`, linking the slot in after the k-th restores `Valid()` with the slot at position k+1 |
| `IndexLists.IndexList.NewNode` | src/lib.rs:889-901 | `new_node` reuses the free-chain head when there is one, which leaves the free chain, and otherwise pushes a slot at the old capacity; the slot holds the element, is on neither chain, and no other cell changes |
| `IndexLists.IndexList.FillFreeHead` | src/lib.rs:890-894 | the reuse branch of `new_node`: the free head is filled and unlinked |
| `IndexLists.IndexList.PushSlot` | src/lib.rs:896-900 | the push branch of `new_node`: a detached slot is added at the old capacity |
| `IndexLists.IndexList.Inserted` | src/lib.rs:537-595 | a slot filled by `new_node` and linked in at position k puts the element at position k of `Elements()`; the handle is in use, gives the element, and `len` grows by one |
| `IndexLists.IndexList.InsertFirst` | src/lib.rs:537-541 | `Elements()` gains the element at the front, and the used order gains the new slot at its head. The returned handle is in use and gives the element. The slot is the old free head (capacity unchanged, free order loses its head) or a new slot at the old capacity (free order empty); no other cell changes |
| `IndexLists.IndexList.InsertLast` | src/lib.rs:553-557 | `Elements()` gains the element at the back, and the used order gains the new slot at its tail, with the same promise about the handle, the slot and the free order |
| `IndexLists.IndexList.InsertBefore` | src/lib.rs:569-576 | the element goes directly before the target's element, or to the front for the invalid handle. The new slot takes the same position in the used order, with the same promise about the handle, the slot and the free order |
| `IndexLists.IndexList.InsertAfter` | src/lib.rs:588-595 | the element goes directly after the target's element, or to the back for the invalid handle. The new slot takes the same position in the used order, with the same promise about the handle, the slot and the free order |
| `IndexLists.IndexList.Remove` | src/lib.rs:633-640 | for an occupied slot: returns its element, deletes that position from `Elements()`, empties the cell and appends the slot at the free tail; len drops by one and capacity is unchanged. The invalid handle returns `None` and changes nothing |
| `IndexLists.IndexList.Release` | src/lib.rs:636-637 | the link work of `remove`: the slot leaves the used chain and joins the free tail |
| `IndexLists.IndexList.RemoveFirst` | src/lib.rs:606-608 | the first element is returned and removed. The used order loses its head, which is appended at the free tail; only that cell is emptied, and capacity is unchanged. An empty list returns `None` and changes nothing |
| `IndexLists.IndexList.RemoveLast` | src/lib.rs:619-621 | the last element is returned and removed. The used order loses its tail, which is appended at the free tail; only that cell is emptied, and capacity is unchanged. An empty list returns `None` and changes nothing |
| `IndexLists.IndexList.TrailingFreeBound` | src/lib.rs:700-713 | the trailing empty run is no longer than the free chain, and `capacity - len` is the length of the free chain |
| `IndexLists.IndexList.TrimSafe` | src/lib.rs:700-713 | `trim_safe` cuts off exactly the maximal trailing run of empty slots: each remaining cell is unchanged, so are the elements and the used chain; the free chain keeps its slots below the new capacity, and no trailing empty slot is left |
| `IndexLists.IndexList.TrailingFreeSlots` | src/lib.rs:701-704 | the `take_while` collection from the last slot down to `len` is exactly the trailing empty run, listed from the top |
| `IndexLists.IndexList.UnlinkFreeSlots` | src/lib.rs:705-707 | unlinking the collected slots leaves the free chain holding its slots below the cut, in order |
| `IndexLists.IndexList.UnlinkTrailing` | src/lib.rs:706 | one `linkout_free` of the highest slot still on the chain |
| `IndexLists.IndexList.TrimTo` | src/lib.rs:705-712 | unlinking and then truncating keeps `Valid()` and the elements |
| `IndexLists.IndexList.Truncate` | src/lib.rs:708-712 | both vectors are cut by the run's length (nothing when the run is empty), and `Valid()` and the elements are kept |
| `IndexLists.IndexList.TrimSwap` | src/lib.rs:734-757 | `trim_swap` leaves capacity = len, an empty free chain and the same elements in the same order. Every element held below the new capacity keeps its slot; every other one came from the j-th occupied slot at or above `len` and now sits in the j-th empty slot below it, both counted in increasing order |
| `IndexLists.IndexList.SwapPairs` | src/lib.rs:750-753 | the moves of the zipped (source, destination) pairs keep the elements, leave every pair done, and replace each source by its destination in the used order |
| `IndexLists.IndexList.SwapFinish` | src/lib.rs:754-756 | clearing the free chain and truncating to `need` gives a valid list with the same elements |
| `IndexLists.IndexList.SwapPair` | src/lib.rs:753 | one `replace_dest_with_source` advances the pairing by one, keeps the elements, and puts the i-th destination where the i-th source was in the used order |
| `IndexLists.IndexList.ReplaceDestWithSource` | src/lib.rs:992-1009 | the source's element moves to the destination slot, which takes the source's position in the used chain; the destination leaves the free chain, the source is emptied, and the elements are unchanged |
| `IndexLists.IndexList.Detach` | src/lib.rs:995-999 | the destination leaves the free chain and the source leaves the used chain; the source's old neighbours are returned |
| `IndexLists.IndexList.Relink` | src/lib.rs:1001-1008 | linking in before the old successor, else after the old predecessor, else first, always puts the destination at the source's old position |
| `IndexLists.IndexList.Append` | src/lib.rs:774-778 | `append` leaves this list holding its elements followed by the other's, and the other list empty with its capacity unchanged. The old used order is a prefix of the new one, and every old element keeps its cell, so its handle stays valid |
| `IndexLists.IndexList.AppendStep` | src/lib.rs:775-776 | one round moves the other list's front element to the back of this one, keeping the concatenation, the prefix of the used order and the other list's capacity; it moves exactly when the other list was non-empty |
| `IndexLists.IndexList.Prepend` | src/lib.rs:795-799 | `prepend` leaves this list holding the other's elements followed by its own, and the other list empty with its capacity unchanged. The old used order is a suffix of the new one, and every old element keeps its cell, so its handle stays valid |
| `IndexLists.IndexList.PrependStep` | src/lib.rs:796-797 | one round moves the other list's back element to the front of this one, keeping the concatenation and the other list's capacity, and puts one slot in front of the used order; it moves exactly when the other list was non-empty |
| `IndexLists.IndexList.Split` | src/lib.rs:820-826 | for a handle in use at position k, this list keeps the first k elements and the new list holds the rest, in order. The kept elements keep their slots, in used order, and their cells. A handle not in use moves nothing and gives an empty list |
| `IndexLists.IndexList.SplitStep` | src/lib.rs:822-823 | one round (`remove_last`, then `insert_first` into the new list) moves this list's last element to the front of the new list, keeping the split of the original sequence and the prefix of the used order |
| `IndexLists.IndexList.From` | src/lib.rs:678-684 | `from(vec)` gives a valid list whose elements are the vector's. Slot i holds the i-th element and is the i-th of the used order, and there is no free slot |
| `IndexLists.IndexList.FromElem` | src/lib.rs:1020-1026 | `From<T>` gives a one-element list with the element in slot 0, the only slot of the used order |
| `Scenarios.TrimSafeAgain` | src/lib.rs:685-713 | `trim_safe` is idempotent: on a list with no trailing empty slot, which is what every call leaves, it changes no cell and neither chain |

## Left out

- `fmt::Display` for `Index`, `IndexNode`, `IndexEnds` and `IndexList` (src/lib.rs:84-92, 115-119, 155-159, 1012-1018). They format a generic `T` as a string. The doc examples that compare `to_string()` output are stated in `scenarios.dfy` as facts about `Elements()`.
- `Iter` beyond its forward walk, which `ToVec` models. `size_hint` always reports `len()`, and the backward cursor `next_back` is not modelled. The source's two cursors never meet, so a mixed forward and backward walk can yield an element twice; that is not modelled either.
- `iter` itself, and the `Default` impl of `IndexList`, which is `new`.
- `test_struct_sizes` (src/lib.rs:1062-1068): it checks memory layout, not behaviour.
- tests/test.rs is not part of this model. It targets an older API.
- Handles.Index.Set: a debug build panics on `n as u32 + 1` when the truncated value is u32::MAX. The model follows the release build, where the add wraps and the handle becomes invalid.
- IndexLists.IndexList.MoveIndex: requires `steps > i32::MIN`, because `-steps` overflows there in Rust.
- IndexLists.IndexList.Remove: requires the handle to be invalid or in use. With a valid handle to an empty slot, `remove_elem_at_index` decrements `size` before it finds the cell empty, which breaks the count. An out-of-range handle panics. Neither case is modelled.
- IndexLists.IndexList.InsertBefore: requires a valid target to be in use. With an unused target, only the `debug_assert`s stop the link-in, and an out-of-range target panics in `set_prev`.
- IndexLists.IndexList.InsertAfter: requires a valid target to be in use, for the same reason; an out-of-range target panics in `set_next`.
- IndexLists.IndexList.GetMut, `GetMutFirst` and `GetMutLast` are modelled as reads of the cell they expose. A write through the returned `&mut T` changes that one element in place and nothing else; no such write is modelled.
- IndexLists.IndexList.From takes the vector by value. The Rust `from(&mut Vec<T>)` also drains the caller's vector, and that side effect is not modelled.
- IndexLists.IndexList.NewNode: requires the slot count to stay within u32::MAX (`MAX_SLOTS`). Beyond it `Index::from(pos)` would hand out the invalid handle or a handle to a wrapped slot. The same bound is required by the four inserts, as `len() < MAX_SLOTS`.
- IndexLists.IndexList.Append: requires the two lengths to sum to at most `MAX_SLOTS`, for the same reason.
- IndexLists.IndexList.Prepend: requires the two lengths to sum to at most `MAX_SLOTS`, for the same reason.
- IndexLists.IndexList.Append: does not state which slots the moved elements take, nor the receiving list's new free order. Each moved element goes through `insert_last`, whose own contract gives both; composing them across the loop is not part of the contract.
- IndexLists.IndexList.Prepend: does not state which slots the moved elements take, nor the receiving list's new free order, for the same reason (each goes through `insert_first`).
- IndexLists.IndexList.Split: does not state which slots the new list uses, nor this list's new free order. The kept elements' slots and cells are stated.
- IndexLists.IndexList.Capacity has no contract of its own: it is the length of the cell vector, and `CapacityIsSum` states what that length means on a valid list.
- `debug_assert!`/`debug_assert_eq!` are not run-time checks here. Each one is a proof obligation at its point in the code.
- `mem::replace` is modelled as "assign and return the old value".
- `usize` is taken to be 64 bits wide (`USIZE_MAX`), which fixes `u64 as usize` as the identity.
- The ghost orders `usedOrder` and `freeOrder` exist only in the model. They name the chains and do not correspond to any field of the Rust list.
- IndexLists.IndexList.TrimSafe states that the remaining cells keep their contents, and leaves the handles implicit: a handle is its slot number plus one, so an unmoved cell means an unchanged handle.
