# Double-ended queues of CSharpCollections, modelled in Dafny

This project models the two deque classes of
`src/CSharpCollections/DoubleEndedQueue`:

- `CircularDoubleEndedQueue<T>` (`circular.dfy`, module `CircularDeque`) is a fixed-capacity ring.
  - Logical position `i` is the slot `(front + i) % Capacity`, and `Count` is a field.
  - A push onto a full ring overwrites the element at the opposite end.
  - The middle `Insert` and `RemoveAt` shift slots round the ring in `while` loops.
- `DoubleEndedQueue<T>` (`growable.dfy`, module `GrowableDeque`) keeps its elements in the slice `items[front..back]` of an array, with slack on both sides.
  - A push that uses up one side calls `AdjustCapacity`.
  - `AdjustCapacity` either moves the range down to a quarter of the array or doubles the array.
  - `TrimExcess` reallocates to `Count + 2` slots, or 3 when the queue is empty.

`common.dfy` (module `DequeCommon`) holds the shared vocabulary:
- the element slot `Option<V>`, where `None` is C#'s `null` and `default(T)`;
- the exceptions, as `Error`, `Outcome` and `Result`;
- the list operations `Inserted`, `Removed`, `FirstIndex` and `Overwritten`;
- `ArrayCopy`, a model of `Array.Copy` with memmove semantics when source and destination are the same array.

Each class keeps its array, its index fields and (for the ring) its count as mutable fields, and every method states the new physical state. The logical contents are the ghost function `Contents()`.
- For the growable queue this is the slice `items[front..back]`.
- For the ring it is `Ring(items[..], front, count)`, which reads `count` slots from `front` and wraps at the end of the array.

A thrown exception is a `Fail`/`Err` outcome, and the state is then unchanged.

`scenarios.dfy` (module `DequeScenarios`) holds client methods that build a queue and run a sequence of its operations:
- back pushes then front pops, in order, with eviction on a ring of fixed capacity;
- back pushes then back pops on the growable queue, which reverse;
- an index write followed by a read at the same position.

They use only the operations' contracts, so they show that those contracts compose across calls.

## Behaviour kept as the source has it

Several paths do not follow the plain deque laws. The model reproduces them and states exactly what they do.

**Ring, middle `Insert`** (CircularDoubleEndedQueue.cs:427-438)
- The loop moves only `Count - index - 1` elements, so the old last element is overwritten.
- A ring with room then counts one more element: whatever was in the slot after the live ones.
- `RingInserted` says this. `RingInsertedLaw` gives the exact condition under which the result is still the list insertion.

**Ring, middle `RemoveAt`** (CircularDoubleEndedQueue.cs:470-484)
- The loop moves `Count - index` elements, reading one slot past the live range.
- On a full ring it then clears the slot of the front element.
- `Count` drops but `back` stays where it was, one slot past the live range. The predicate `Consistent()` says that `back` is in step with `front + count`; this path breaks it.
- `RingRemoved` and `RingAfterMiddleRemove` describe the result. `RingRemovedLaw` says when it is still the list removal.
- The operations that use `back` (`Enqueue`, `TryDequeueBack`, `PeekBack`, and `Insert` at `Count`) are only stated in terms of `Contents()` from a consistent state.

**Growable, middle `RemoveAt`** (DoubleEndedQueue.cs:451)
- `Array.Copy` is asked for `back - index` slots starting at `front + index + 1`, which is more than the live range.
- When `front + back + 1 > Capacity` the copy runs past the end of the array. `Array.Copy` throws `ArgumentException`, so the model returns `Fail(Argument)`.
- Otherwise the extra slack slots are copied down too, and the contents are the list removal.

**Growable, `Insert` on an empty queue with `index > 0`** (DoubleEndedQueue.cs:407-421)
- The guard lets this through.
- `Array.Copy` then gets a negative length and throws `ArgumentOutOfRangeException`, which the model returns as `Fail(ArgumentOutOfRange)`.

## Model

| member | source | states |
|---|---|---|
| DequeCommon.ArrayCopy | src/CSharpCollections/DoubleEndedQueue/DoubleEndedQueue.cs:87 | `Array.Copy` on an accepted range: the destination becomes the old destination with the saved source range written at `dstIndex`, also when both arrays are one (memmove) |
| DequeCommon.CopyDown | src/CSharpCollections/DoubleEndedQueue/DoubleEndedQueue.cs:421 | the `Array.Copy` direction for a destination above its source in the same array: copying from the highest slot down leaves the saved source range at the destination |
| DequeCommon.CopyUp | src/CSharpCollections/DoubleEndedQueue/DoubleEndedQueue.cs:451 | the `Array.Copy` direction for distinct arrays or a destination not above the source: copying from the lowest slot up leaves the saved source range at the destination |
| DequeCommon.Inserted | src/CSharpCollections/DoubleEndedQueue/DoubleEndedQueue.cs:404-428 | list insertion: length grows by one, `x` at `i`, earlier elements kept, later ones moved up by one |
| DequeCommon.Removed | src/CSharpCollections/DoubleEndedQueue/DoubleEndedQueue.cs:434-453 | list removal: length shrinks by one, earlier elements kept, later ones moved down by one |
| DequeCommon.RemovedInserted | src/CSharpCollections/DoubleEndedQueue/DoubleEndedQueue.cs:404-453 | list law behind the growable `Insert`/`RemoveAt` contents: removing at `i` what was inserted at `i` gives the sequence back |
| DequeCommon.InsertedRemoved | src/CSharpCollections/DoubleEndedQueue/DoubleEndedQueue.cs:404-453 | list law behind the growable `Insert`/`RemoveAt` contents: re-inserting a removed element at its position gives the sequence back |
| DequeCommon.FirstIndex | src/CSharpCollections/DoubleEndedQueue/CircularDoubleEndedQueue.cs:389-400 | the answer of `IndexOf`: -1 exactly when absent, otherwise a position holding `x` with no earlier occurrence |
| DequeCommon.FirstIndexUnique | src/CSharpCollections/DoubleEndedQueue/DoubleEndedQueue.cs:385-396 | a position holding `x` with no earlier occurrence is the answer of `FirstIndex` |
| DequeCommon.Overwritten | src/CSharpCollections/DoubleEndedQueue/DoubleEndedQueue.cs:323 | a destination after a copy: same length, the piece at `at`, every other slot unchanged |
| DequeCommon.OverwrittenTwice | src/CSharpCollections/DoubleEndedQueue/CircularDoubleEndedQueue.cs:346-350 | two abutting copies, as in the ring's two-part `CopyTo`, are one copy of the joined pieces |
| CircularDeque.Wrap | src/CSharpCollections/DoubleEndedQueue/CircularDoubleEndedQueue.cs:83-87 | the forward index step: `front`/`back` + 1 reset to 0 at the end of the array lands on a slot of the array |
| CircularDeque.Before | src/CSharpCollections/DoubleEndedQueue/CircularDoubleEndedQueue.cs:105-109 | the backward index step: `front` - 1 reset to the last slot below 0 lands on a slot, and stepping forward from it gives the index back |
| CircularDeque.ModWrap | src/CSharpCollections/DoubleEndedQueue/CircularDoubleEndedQueue.cs:426-431 | on the slot indices the ring reduces with `%` (the start slot and both slots of each loop step) the remainder is a single conditional subtraction |
| CircularDeque.Ring | src/CSharpCollections/DoubleEndedQueue/CircularDoubleEndedQueue.cs:389-400 | logical position `i` is the slot `(front + i) % Capacity` |
| CircularDeque.RingWrite | src/CSharpCollections/DoubleEndedQueue/CircularDoubleEndedQueue.cs:251 | writing the slot of position `j` changes the contents at `j` only |
| CircularDeque.RingEnqueue | src/CSharpCollections/DoubleEndedQueue/CircularDoubleEndedQueue.cs:81-97 | the slots a back push writes and moves to give `PushBack` of the old contents, with `back` in step again |
| CircularDeque.RingEnqueueFront | src/CSharpCollections/DoubleEndedQueue/CircularDoubleEndedQueue.cs:103-120 | the slots a front push writes and moves give `PushFront` of the old contents |
| CircularDeque.PushBack | src/CSharpCollections/DoubleEndedQueue/CircularDoubleEndedQueue.cs:81-97 | a back push gives `min(Count + 1, Capacity)` elements ending with `x` |
| CircularDeque.PushBackKeepsNewest | src/CSharpCollections/DoubleEndedQueue/CircularDoubleEndedQueue.cs:86-94 | a back push keeps the newest `Capacity` elements of `old + [x]`, so a full ring loses its front |
| CircularDeque.PushFront | src/CSharpCollections/DoubleEndedQueue/CircularDoubleEndedQueue.cs:103-120 | a front push gives `min(Count + 1, Capacity)` elements starting with `x` |
| CircularDeque.PushFrontKeepsOldest | src/CSharpCollections/DoubleEndedQueue/CircularDoubleEndedQueue.cs:110-119 | a front push keeps the first `Capacity` elements of `[x] + old`, so a full ring loses its back |
| CircularDeque.ReversedAt | src/CSharpCollections/DoubleEndedQueue/CircularDoubleEndedQueue.cs:103-120 | front pushes leave their elements in reverse order: position `i` of the reversal is position `n-1-i` |
| CircularDeque.PushAllBackKeepsNewest | src/CSharpCollections/DoubleEndedQueue/CircularDoubleEndedQueue.cs:81-97 | eviction law: after any number of back pushes the ring holds the newest `Capacity` elements of `old + pushed`, oldest first |
| CircularDeque.PushAllFrontKeepsOldest | src/CSharpCollections/DoubleEndedQueue/CircularDoubleEndedQueue.cs:103-120 | after any number of front pushes the ring holds the first `Capacity` elements of `reverse(pushed) + old` |
| CircularDeque.PushAllBackInOrder | src/CSharpCollections/DoubleEndedQueue/CircularDoubleEndedQueue.cs:81-97 | up to the capacity nothing is evicted: back pushes onto an empty ring keep arrival order |
| CircularDeque.RingRemoved | src/CSharpCollections/DoubleEndedQueue/CircularDoubleEndedQueue.cs:445-485 | the contents after `RemoveAt` from a consistent ring: one element fewer |
| CircularDeque.RingRemovedLaw | src/CSharpCollections/DoubleEndedQueue/CircularDoubleEndedQueue.cs:470-484 | `RemoveAt` gives the list removal if and only if the ring is not full, the position is an end, or the front element is already null |
| CircularDeque.RingDropFront | src/CSharpCollections/DoubleEndedQueue/CircularDoubleEndedQueue.cs:452-458 | clearing the front slot and moving the front on removes position 0 |
| CircularDeque.RingDropBack | src/CSharpCollections/DoubleEndedQueue/CircularDoubleEndedQueue.cs:459-468 | clearing the slot of the last position removes that position |
| CircularDeque.RingAfterMiddleRemove | src/CSharpCollections/DoubleEndedQueue/CircularDoubleEndedQueue.cs:470-484 | every slot of the ring after the middle removal loop: positions after `index` moved down, the slot `count` on cleared, and on a full ring the front slot cleared and the last slot holding the old front |
| CircularDeque.AfterMiddleRemoveLive | src/CSharpCollections/DoubleEndedQueue/CircularDoubleEndedQueue.cs:470-484 | the live part of the ring after the middle removal loop is `RingRemoved` |
| CircularDeque.RingInserted | src/CSharpCollections/DoubleEndedQueue/CircularDoubleEndedQueue.cs:408-439 | the contents after `Insert`: `min(Count + 1, Capacity)` elements |
| CircularDeque.RingInsertedLaw | src/CSharpCollections/DoubleEndedQueue/CircularDoubleEndedQueue.cs:427-438 | `Insert` gives the list insertion if and only if the ring has room and either the position is an end or the stale slot after the live ones equals the overwritten last element |
| CircularDeque.ShiftUpStep | src/CSharpCollections/DoubleEndedQueue/CircularDoubleEndedQueue.cs:428-432 | one iteration of the insert loop moves one more position up round the ring |
| CircularDeque.InsertedSlots | src/CSharpCollections/DoubleEndedQueue/CircularDoubleEndedQueue.cs:433-438 | after the loop and the write of `item`, the ring is the old ring with `item` inserted and position `count` dropped, and its first `min(count + 1, Capacity)` slots are `RingInserted` |
| CircularDeque.RingCopy | src/CSharpCollections/DoubleEndedQueue/CircularDoubleEndedQueue.cs:341-350 | the two `Array.Copy` calls of `CopyTo` write the first `len` elements of the ring in logical order |
| CircularDeque.ShiftDownStep | src/CSharpCollections/DoubleEndedQueue/CircularDoubleEndedQueue.cs:473-481 | one iteration of the removal loop moves one more position down round the ring |
| CircularDeque.MiddleRemoveSlots | src/CSharpCollections/DoubleEndedQueue/CircularDoubleEndedQueue.cs:470-484 | after the loop and the final clear, the ring is `RingAfterMiddleRemove` of the old ring |
| CircularDeque.CircularDoubleEndedQueue.constructor | src/CSharpCollections/DoubleEndedQueue/CircularDoubleEndedQueue.cs:27-31 | an empty, consistent ring of the given capacity, every slot null, front 0 |
| CircularDeque.CircularDoubleEndedQueue.Default | src/CSharpCollections/DoubleEndedQueue/CircularDoubleEndedQueue.cs:39 | the same with capacity 32 |
| CircularDeque.CircularDoubleEndedQueue.Capacity | src/CSharpCollections/DoubleEndedQueue/CircularDoubleEndedQueue.cs:44 | the length of the slot array, at least 3 |
| CircularDeque.CircularDoubleEndedQueue.Count | src/CSharpCollections/DoubleEndedQueue/CircularDoubleEndedQueue.cs:49 | the element count, between 0 and the capacity |
| CircularDeque.CircularDoubleEndedQueue.Slots | src/CSharpCollections/DoubleEndedQueue/CircularDoubleEndedQueue.cs:426-431 | the whole slot array read from the front slot, slot `k` being `(front + k) % Capacity` as the shifting loops index it; one entry per slot |
| CircularDeque.CircularDoubleEndedQueue.BackMeetsFront | src/CSharpCollections/DoubleEndedQueue/CircularDoubleEndedQueue.cs:81-120 | under `Consistent()` (`back` is the slot after the last element, which the pushes and pops keep), `back` meets `front` exactly when the ring is empty or full |
| CircularDeque.CircularDoubleEndedQueue.Create | src/CSharpCollections/DoubleEndedQueue/CircularDoubleEndedQueue.cs:27-31 | a capacity below 3 throws `ArgumentOutOfRangeException`; otherwise an empty ring of that capacity |
| CircularDeque.CircularDoubleEndedQueue.Enqueue | src/CSharpCollections/DoubleEndedQueue/CircularDoubleEndedQueue.cs:81-97 | writes `x` at `back` and moves `back` on; with room, count + 1; full, the front follows `back`; from a consistent ring the contents are `PushBack` |
| CircularDeque.CircularDoubleEndedQueue.WriteBack | src/CSharpCollections/DoubleEndedQueue/CircularDoubleEndedQueue.cs:83-96 | the statements of `Enqueue`: only slot `back` changes, to `x`; `back` moves on round the ring; count + 1 with room, otherwise the front moves to the new `back` |
| CircularDeque.CircularDoubleEndedQueue.Add | src/CSharpCollections/DoubleEndedQueue/CircularDoubleEndedQueue.cs:491-494 | the same as `Enqueue`: the written slot, `back` moved on, the count or front update, and `PushBack` from a consistent ring |
| CircularDeque.CircularDoubleEndedQueue.EnqueueFront | src/CSharpCollections/DoubleEndedQueue/CircularDoubleEndedQueue.cs:103-120 | moves `front` back one slot and writes `x` there; with room, count + 1; full, `back` follows `front`; the contents are `PushFront` in every state |
| CircularDeque.CircularDoubleEndedQueue.TryDequeue | src/CSharpCollections/DoubleEndedQueue/CircularDoubleEndedQueue.cs:128-143 | true exactly when non-empty: returns the first element, clears its slot, moves `front` on and drops position 0; empty: false, null, nothing changes |
| CircularDeque.CircularDoubleEndedQueue.ClearFront | src/CSharpCollections/DoubleEndedQueue/CircularDoubleEndedQueue.cs:132-138 | the removal statements of `TryDequeue` (and of `RemoveAt(0)`): only the front slot changes, to null; `front` moves on; count - 1; the contents lose position 0, which is `RingRemoved` at 0 |
| CircularDeque.CircularDoubleEndedQueue.Dequeue | src/CSharpCollections/DoubleEndedQueue/CircularDoubleEndedQueue.cs:151-155 | non-empty: the first element, the front slot cleared, `front` moved on, count - 1, the contents without position 0; empty: null and nothing changes |
| CircularDeque.CircularDoubleEndedQueue.TryDequeueBack | src/CSharpCollections/DoubleEndedQueue/CircularDoubleEndedQueue.cs:163-180 | true exactly when non-empty: moves `back` back one slot, returns and clears that slot; from a consistent ring that is the last element and the contents lose it |
| CircularDeque.CircularDoubleEndedQueue.ClearBack | src/CSharpCollections/DoubleEndedQueue/CircularDoubleEndedQueue.cs:167-174 | the removal statements of `TryDequeueBack` (and of `RemoveAt(Count - 1)`): `back` moves back one slot, that slot is returned and cleared, count - 1; from a consistent ring that is the last element and `RingRemoved` at the last position |
| CircularDeque.CircularDoubleEndedQueue.DequeueBack | src/CSharpCollections/DoubleEndedQueue/CircularDoubleEndedQueue.cs:187-191 | non-empty: `back` moves back one slot, whose value is returned and cleared, count - 1, and from a consistent ring that is the last element and the contents lose it; empty: null and nothing changes |
| CircularDeque.CircularDoubleEndedQueue.Peek | src/CSharpCollections/DoubleEndedQueue/CircularDoubleEndedQueue.cs:197-204 | the first element, or null when empty |
| CircularDeque.CircularDoubleEndedQueue.PeekBack | src/CSharpCollections/DoubleEndedQueue/CircularDoubleEndedQueue.cs:210-217 | null when empty; the last element on a consistent ring |
| CircularDeque.CircularDoubleEndedQueue.Get | src/CSharpCollections/DoubleEndedQueue/CircularDoubleEndedQueue.cs:253-261 | throws `IndexOutOfRangeException` exactly outside `0..Count-1`; otherwise the element at that position |
| CircularDeque.CircularDoubleEndedQueue.Set | src/CSharpCollections/DoubleEndedQueue/CircularDoubleEndedQueue.cs:228-251 | throws exactly outside `-1..Count`; -1 and `Count` push (null: no change) with `EnqueueFront`'s and `Enqueue`'s slot, `front`, `back` and count effect, the contents being `PushFront`, or from a consistent ring `PushBack`, of the old ones; null at a live position has the effect of `RemoveAt` there (count - 1, the end slot cleared or the middle slots `RingAfterMiddleRemove`); otherwise exactly the slot `(front + index) % Capacity` takes the value |
| CircularDeque.CircularDoubleEndedQueue.Clear | src/CSharpCollections/DoubleEndedQueue/CircularDoubleEndedQueue.cs:267-273 | a fresh all-null array of the same capacity, front 0, empty and consistent |
| CircularDeque.CircularDoubleEndedQueue.Contains | src/CSharpCollections/DoubleEndedQueue/CircularDoubleEndedQueue.cs:283-286 | true exactly when the element is in the contents |
| CircularDeque.CircularDoubleEndedQueue.Enumerate | src/CSharpCollections/DoubleEndedQueue/CircularDoubleEndedQueue.cs:292-305 | the enumerator's sequence is the contents, front first |
| CircularDeque.CircularDoubleEndedQueue.CopyTo | src/CSharpCollections/DoubleEndedQueue/CircularDoubleEndedQueue.cs:323-354 | null target: `ArgumentNullException`; `index >= Length` (or a negative index with elements to copy): `ArgumentOutOfRangeException`; otherwise the first `min(Count, Length - index)` elements are written from `index` on and nothing else changes |
| CircularDeque.CircularDoubleEndedQueue.CopyRing | src/CSharpCollections/DoubleEndedQueue/CircularDoubleEndedQueue.cs:341-350 | the two `Array.Copy` calls write the first `len` ring positions in order |
| CircularDeque.CircularDoubleEndedQueue.ToArray | src/CSharpCollections/DoubleEndedQueue/CircularDoubleEndedQueue.cs:371-380 | an array equal to the contents, freshly allocated when the ring is non-empty (the source returns the shared `Array.Empty<T>()` when it is empty) |
| CircularDeque.CircularDoubleEndedQueue.IndexOf | src/CSharpCollections/DoubleEndedQueue/CircularDoubleEndedQueue.cs:389-400 | the least position of an equal element, or -1 (`FirstIndex`) |
| CircularDeque.CircularDoubleEndedQueue.Insert | src/CSharpCollections/DoubleEndedQueue/CircularDoubleEndedQueue.cs:408-439 | null item: no change; throws exactly outside `0..Count`; contents become `RingInserted`; at 0 and at `Count` the slot, front, back and count effects of the two pushes; in the middle the ring is the old ring with the item inserted and position `Count` dropped, with `InsertInMiddle`'s count and `back` |
| CircularDeque.CircularDoubleEndedQueue.InsertInMiddle | src/CSharpCollections/DoubleEndedQueue/CircularDoubleEndedQueue.cs:426-438 | the middle insert: count becomes `min(Count + 1, Capacity)`, `back` moves on only with room, the contents are `RingInserted` |
| CircularDeque.CircularDoubleEndedQueue.GrowAfterInsert | src/CSharpCollections/DoubleEndedQueue/CircularDoubleEndedQueue.cs:434-438 | a ring with room counts one more element and moves `back` on one slot, keeping a consistent ring consistent; a full ring is left as it is |
| CircularDeque.CircularDoubleEndedQueue.ShiftUp | src/CSharpCollections/DoubleEndedQueue/CircularDoubleEndedQueue.cs:427-432 | the insert loop: read from the front, the ring becomes the old one with positions `index..Count-2` moved one slot up, the rest unchanged |
| CircularDeque.CircularDoubleEndedQueue.WriteInserted | src/CSharpCollections/DoubleEndedQueue/CircularDoubleEndedQueue.cs:433 | the write of `item` at position `index` leaves the ring as the old ring with `item` inserted and position `Count` dropped, whose first `min(Count + 1, Capacity)` slots are `RingInserted` |
| CircularDeque.CircularDoubleEndedQueue.RemoveAt | src/CSharpCollections/DoubleEndedQueue/CircularDoubleEndedQueue.cs:445-485 | no change outside the live positions; otherwise count - 1 and contents `RingRemoved`; at 0 the front slot cleared and `front` moved on; at `Count - 1` `back` moved back and its slot cleared; the middle path leaves `back` in place with the slots `RingAfterMiddleRemove`, so a consistent ring becomes inconsistent |
| CircularDeque.CircularDoubleEndedQueue.RemoveInMiddle | src/CSharpCollections/DoubleEndedQueue/CircularDoubleEndedQueue.cs:470-484 | the middle removal: front and back unchanged, count - 1, the ring becomes `RingAfterMiddleRemove` |
| CircularDeque.CircularDoubleEndedQueue.ShiftDown | src/CSharpCollections/DoubleEndedQueue/CircularDoubleEndedQueue.cs:471-482 | the removal loop: positions `index..Count-1` take the value of the next slot round the ring, and the slot `Count` positions after the front is returned |
| CircularDeque.CircularDoubleEndedQueue.MoveDown | src/CSharpCollections/DoubleEndedQueue/CircularDoubleEndedQueue.cs:475-481 | one iteration of the removal loop: the slot of position `j` takes the value of the next slot round the ring |
| CircularDeque.CircularDoubleEndedQueue.Remove | src/CSharpCollections/DoubleEndedQueue/CircularDoubleEndedQueue.cs:501-511 | true exactly when the element occurs; then `RemoveAt` at its first occurrence: count - 1, the end slot cleared with `front` or `back` moved, or the middle slots `RingAfterMiddleRemove` with `back` in place and consistency lost; otherwise nothing changes |
| GrowableDeque.AdjustedLayout | src/CSharpCollections/DoubleEndedQueue/DoubleEndedQueue.cs:81-98 | the capacity stays exactly when fewer than half the slots are used, otherwise it doubles; either way both ends get a free slot |
| GrowableDeque.TrimmedLayout | src/CSharpCollections/DoubleEndedQueue/DoubleEndedQueue.cs:359-377 | at least 3 slots, front 1, and a non-empty queue keeps exactly one free slot at the back |
| GrowableDeque.ShiftUpInserted | src/CSharpCollections/DoubleEndedQueue/DoubleEndedQueue.cs:421-423 | the copy one slot up and the write of the item give the list insertion on the live slice |
| GrowableDeque.ShiftDownRemoved | src/CSharpCollections/DoubleEndedQueue/DoubleEndedQueue.cs:451-452 | the over-long copy one slot down and the clear give the list removal on the live slice |
| GrowableDeque.ShiftedUpSlots | src/CSharpCollections/DoubleEndedQueue/DoubleEndedQueue.cs:421-423 | the slot array after the middle insert's copy one slot up and the write of the item, the same length as before |
| GrowableDeque.ShiftedDownSlots | src/CSharpCollections/DoubleEndedQueue/DoubleEndedQueue.cs:451-452 | the slot array after the middle removal's over-long copy one slot down and the clear of the new last slot, the same length as before |
| GrowableDeque.DoubleEndedQueue.constructor | src/CSharpCollections/DoubleEndedQueue/DoubleEndedQueue.cs:27-32 | an empty queue over an all-null array of the given capacity, `front = back = capacity / 2` |
| GrowableDeque.DoubleEndedQueue.Default | src/CSharpCollections/DoubleEndedQueue/DoubleEndedQueue.cs:40 | the same with capacity 32 |
| GrowableDeque.DoubleEndedQueue.Capacity | src/CSharpCollections/DoubleEndedQueue/DoubleEndedQueue.cs:45 | the length of the slot array, at least 3 |
| GrowableDeque.DoubleEndedQueue.Count | src/CSharpCollections/DoubleEndedQueue/DoubleEndedQueue.cs:50 | `back - front`, between 0 and two fewer than the capacity |
| GrowableDeque.DoubleEndedQueue.Create | src/CSharpCollections/DoubleEndedQueue/DoubleEndedQueue.cs:27-32 | a capacity below 3 throws `ArgumentOutOfRangeException`; otherwise an empty queue of that capacity |
| GrowableDeque.DoubleEndedQueue.AdjustCapacity | src/CSharpCollections/DoubleEndedQueue/DoubleEndedQueue.cs:81-98 | moves the range to the `AdjustedLayout`, keeping every element: same array, or a fresh one that is null outside the range |
| GrowableDeque.DoubleEndedQueue.MoveToQuarter | src/CSharpCollections/DoubleEndedQueue/DoubleEndedQueue.cs:84-91 | same array, front at a quarter of it, the range copied there |
| GrowableDeque.DoubleEndedQueue.MoveToDoubled | src/CSharpCollections/DoubleEndedQueue/DoubleEndedQueue.cs:92-97 | a fresh array of twice the length, front at the old half, the range copied there |
| GrowableDeque.DoubleEndedQueue.Enqueue | src/CSharpCollections/DoubleEndedQueue/DoubleEndedQueue.cs:104-111 | the contents become `old + [x]`; without adjustment only slot `back` changes; otherwise the layout is `AdjustedLayout`; `items` stays the same array unless the capacity changed, and is a fresh one if it did |
| GrowableDeque.DoubleEndedQueue.Add | src/CSharpCollections/DoubleEndedQueue/DoubleEndedQueue.cs:459-462 | the same as `Enqueue`: the contents become `old + [x]`; without adjustment only slot `back` changes; otherwise the layout is `AdjustedLayout`; `items` stays the same array unless the capacity changed, and is a fresh one if it did |
| GrowableDeque.DoubleEndedQueue.EnqueueFront | src/CSharpCollections/DoubleEndedQueue/DoubleEndedQueue.cs:117-124 | the contents become `[x] + old`; without adjustment only slot `front - 1` changes; otherwise the layout is `AdjustedLayout`; `items` stays the same array unless the capacity changed, and is a fresh one if it did |
| GrowableDeque.DoubleEndedQueue.TryDequeue | src/CSharpCollections/DoubleEndedQueue/DoubleEndedQueue.cs:132-142 | true exactly when non-empty: returns the first element, clears its slot, contents lose position 0; empty: false, null, nothing changes |
| GrowableDeque.DoubleEndedQueue.Dequeue | src/CSharpCollections/DoubleEndedQueue/DoubleEndedQueue.cs:150-154 | non-empty: the first element, its slot cleared, `front` + 1, `back` kept, the contents without it; empty: null and nothing changes |
| GrowableDeque.DoubleEndedQueue.TryDequeueBack | src/CSharpCollections/DoubleEndedQueue/DoubleEndedQueue.cs:162-173 | true exactly when non-empty: returns the last element, clears its slot, contents lose it; empty: false, null, nothing changes |
| GrowableDeque.DoubleEndedQueue.DequeueBack | src/CSharpCollections/DoubleEndedQueue/DoubleEndedQueue.cs:180-184 | non-empty: the last element, `back` - 1, its slot cleared, `front` kept, the contents without it; empty: null and nothing changes |
| GrowableDeque.DoubleEndedQueue.Peek | src/CSharpCollections/DoubleEndedQueue/DoubleEndedQueue.cs:190-197 | the first element, or null when empty |
| GrowableDeque.DoubleEndedQueue.PeekBack | src/CSharpCollections/DoubleEndedQueue/DoubleEndedQueue.cs:203-210 | the last element, or null when empty |
| GrowableDeque.DoubleEndedQueue.Get | src/CSharpCollections/DoubleEndedQueue/DoubleEndedQueue.cs:246-254 | throws `IndexOutOfRangeException` exactly outside `0..Count-1`; otherwise the element at that position |
| GrowableDeque.DoubleEndedQueue.Set | src/CSharpCollections/DoubleEndedQueue/DoubleEndedQueue.cs:221-245 | throws `IndexOutOfRangeException` exactly outside `-1..Count`; -1 and `Count` push (null: no change) with the layout of `EnqueueFront` and `Enqueue`; null at a live position removes it, with `RemoveAt`'s `ArgumentException` and its `front`/`back` update; otherwise that one position takes the value; `items` stays the same array unless the capacity changed, and is a fresh one if it did |
| GrowableDeque.DoubleEndedQueue.Clear | src/CSharpCollections/DoubleEndedQueue/DoubleEndedQueue.cs:260-265 | a fresh all-null array of the initial capacity, empty, `front = back = initialCapacity / 2` |
| GrowableDeque.DoubleEndedQueue.Contains | src/CSharpCollections/DoubleEndedQueue/DoubleEndedQueue.cs:275-278 | true exactly when the element is in the contents |
| GrowableDeque.DoubleEndedQueue.Enumerate | src/CSharpCollections/DoubleEndedQueue/DoubleEndedQueue.cs:284-287 | the enumerator's sequence is the contents, front first |
| GrowableDeque.DoubleEndedQueue.CopyTo | src/CSharpCollections/DoubleEndedQueue/DoubleEndedQueue.cs:305-326 | null target: `ArgumentNullException`; `index >= Length` (or a negative index with elements to copy): `ArgumentOutOfRangeException`; otherwise the first `min(Count, Length - index)` elements are written from `index` on and nothing else changes |
| GrowableDeque.DoubleEndedQueue.ToArray | src/CSharpCollections/DoubleEndedQueue/DoubleEndedQueue.cs:343-353 | a fresh array equal to the contents |
| GrowableDeque.DoubleEndedQueue.TrimExcess | src/CSharpCollections/DoubleEndedQueue/DoubleEndedQueue.cs:359-377 | a fresh array in the `TrimmedLayout`, the same contents, null outside them |
| GrowableDeque.DoubleEndedQueue.IndexOf | src/CSharpCollections/DoubleEndedQueue/DoubleEndedQueue.cs:385-396 | the least position of an equal element, or -1 (`FirstIndex`) |
| GrowableDeque.DoubleEndedQueue.Insert | src/CSharpCollections/DoubleEndedQueue/DoubleEndedQueue.cs:404-428 | null item: no change; throws exactly for a negative position or one past `Count` (including any positive position on an empty queue); otherwise the contents are the list insertion; with room the array and `front` stay and the slots are those of the push or `ShiftedUpSlots`; when the back or front slack is used up the layout is `AdjustedLayout`; `items` stays the same array unless the capacity changed, and is a fresh one if it did |
| GrowableDeque.DoubleEndedQueue.InsertInMiddle | src/CSharpCollections/DoubleEndedQueue/DoubleEndedQueue.cs:421-427 | the middle insert: the contents are the list insertion; with room the same array and `front`, `back` + 1 and the slots `ShiftedUpSlots`; when `back` reaches the end the layout is `AdjustedLayout`; `items` stays the same array unless the capacity changed, and is a fresh one if it did |
| GrowableDeque.DoubleEndedQueue.ShiftUp | src/CSharpCollections/DoubleEndedQueue/DoubleEndedQueue.cs:421-423 | the middle insert before reallocation: the slots become `ShiftedUpSlots`, the live slice the list insertion |
| GrowableDeque.DoubleEndedQueue.WriteShiftedUp | src/CSharpCollections/DoubleEndedQueue/DoubleEndedQueue.cs:421-423 | the array writes of the middle insert: the slots become `ShiftedUpSlots` and the live slice grown by one is the list insertion |
| GrowableDeque.DoubleEndedQueue.RemoveAt | src/CSharpCollections/DoubleEndedQueue/DoubleEndedQueue.cs:434-453 | no change outside the live positions; throws `ArgumentException` exactly for a middle position with `front + back + 1 > Capacity`; otherwise the contents are the list removal; at 0 `front` + 1 and its slot cleared; at `Count - 1` `back` - 1 and its slot cleared; in the middle `back` - 1 and the slots `ShiftedDownSlots` |
| GrowableDeque.DoubleEndedQueue.ShiftDown | src/CSharpCollections/DoubleEndedQueue/DoubleEndedQueue.cs:451-452 | the accepted middle removal: `back` - 1, the slots become `ShiftedDownSlots`, the contents the list removal |
| GrowableDeque.DoubleEndedQueue.WriteShiftedDown | src/CSharpCollections/DoubleEndedQueue/DoubleEndedQueue.cs:451-452 | the array writes of the middle removal: the slots become `ShiftedDownSlots` and the live slice shrunk by one is the list removal |
| GrowableDeque.DoubleEndedQueue.Remove | src/CSharpCollections/DoubleEndedQueue/DoubleEndedQueue.cs:469-479 | false exactly when absent; `ArgumentException` exactly when `RemoveAt` of the first occurrence throws; otherwise `RemoveAt` at that occurrence: the contents lose it, with its `front`/`back` update and slots |
| DequeScenarios.RingPushNewest | src/CSharpCollections/DoubleEndedQueue/CircularDoubleEndedQueue.cs:81-97 | one back push on a ring holding the newest elements of `t` leaves the newest elements of `t + [x]`, the ring staying consistent |
| DequeScenarios.RingFilled | src/CSharpCollections/DoubleEndedQueue/CircularDoubleEndedQueue.cs:81-97 | a new ring of capacity `c` after pushing `xs` at the back holds the newest `c` of them and is consistent |
| DequeScenarios.RingDrain | src/CSharpCollections/DoubleEndedQueue/CircularDoubleEndedQueue.cs:128-155 | popping a consistent ring from the front until empty yields its contents in order |
| DequeScenarios.RingPushThenDrain | src/CSharpCollections/DoubleEndedQueue/CircularDoubleEndedQueue.cs:81-155 | pushing `xs` at the back then draining from the front yields the newest `c` elements of `xs` in arrival order, and all of `xs` when they fit |
| DequeScenarios.RingSetThenGet | src/CSharpCollections/DoubleEndedQueue/CircularDoubleEndedQueue.cs:226-262 | on a ring filled with `xs`, a value written at a live position is read back there, and the ring's array holds `xs` with only that position changed |
| DequeScenarios.GrowableFilled | src/CSharpCollections/DoubleEndedQueue/DoubleEndedQueue.cs:104-111 | a new queue of capacity 3 after pushing `xs` at the back holds `xs`, however often the capacity was adjusted |
| DequeScenarios.GrowableDrain | src/CSharpCollections/DoubleEndedQueue/DoubleEndedQueue.cs:132-154 | popping from the front until empty yields the contents in order |
| DequeScenarios.GrowableDrainBack | src/CSharpCollections/DoubleEndedQueue/DoubleEndedQueue.cs:162-184 | popping from the back until empty yields the contents last first |
| DequeScenarios.GrowablePushThenDrain | src/CSharpCollections/DoubleEndedQueue/DoubleEndedQueue.cs:104-154 | k back pushes then front pops return `xs` in order and leave the queue empty |
| DequeScenarios.GrowablePushThenPopBack | src/CSharpCollections/DoubleEndedQueue/DoubleEndedQueue.cs:104-184 | back pushes then back pops return `xs` reversed |
| DequeScenarios.GrowableSetThenGet | src/CSharpCollections/DoubleEndedQueue/DoubleEndedQueue.cs:219-255 | on a queue filled with `xs`, a value written at a live position is read back there, and the contents are `xs` with only that position changed |

## Left out

- `SyncRoot`, `IsSynchronized` and `IsReadOnly` are left out: they are thread-synchronisation plumbing and constants.
- The lazy `yield` enumerators are modelled as `Enumerate`, which returns the sequence they yield; the enumerator objects are not modelled.
- Only the typed target of `CopyTo` is modelled. The runtime type check of the non-generic `ICollection.CopyTo(Array, int)` (`ArrayTypeMismatchException`) is left out.
- Both `CopyTo` models require the target not to be the deque's own slot array, which a caller cannot reach.
- Elements are `Option<V>`, with `None` as `null`. Value-type instantiations, where `default(T)` is not `null`, are not modelled.
- `EqualityComparer<T>.Default` is Dafny equality on `V`.
- The constructors set the fields that `Clear` sets instead of calling it. The ring's `RemoveAt` runs its end positions through `ClearFront` and `ClearBack`, the removal statements of the two pops, which have the same effect as the source's inline code.
- CircularDeque.CircularDoubleEndedQueue.Enqueue: states the contents only from a consistent ring. From an inconsistent one it states only the physical effect, because the source writes at a stale `back`.
- CircularDeque.CircularDoubleEndedQueue.Add: states the contents only from a consistent ring, as `Enqueue` does.
- CircularDeque.CircularDoubleEndedQueue.TryDequeueBack: the returned element and the contents are stated only from a consistent ring. Otherwise only the physical effect is stated.
- CircularDeque.CircularDoubleEndedQueue.DequeueBack: states the returned element and the contents only from a consistent ring.
- CircularDeque.CircularDoubleEndedQueue.PeekBack: names the last element only on a consistent ring.
- CircularDeque.CircularDoubleEndedQueue.Set: the contents after the append at `Count`, and after a null written at `Count - 1`, are stated only from a consistent ring. The slot written or cleared, `front`, `back` and the count are stated in every state for both pushes and for every removal.
- CircularDeque.CircularDoubleEndedQueue.ToArray: an empty ring returns a newly allocated empty array, where the source returns the shared `Array.Empty<T>()`. The contract promises a fresh array only for a non-empty ring.
- CircularDeque.CircularDoubleEndedQueue.Insert: the contents at position `Count` are stated only from a consistent ring.
- CircularDeque.CircularDoubleEndedQueue.RemoveAt: the removal of the last position is stated only from a consistent ring.
- CircularDeque.CircularDoubleEndedQueue.Remove: the removal of the last position is stated only from a consistent ring.
- GrowableDeque.DoubleEndedQueue.Enqueue: when `AdjustCapacity` runs, states the new layout and contents but not the slots outside the range. Those are in `AdjustCapacity`'s contract.
- GrowableDeque.DoubleEndedQueue.Add: when `AdjustCapacity` runs, states the new layout and contents but not the slots outside the range, as `Enqueue` does.
- GrowableDeque.DoubleEndedQueue.EnqueueFront: when `AdjustCapacity` runs, states the new layout and contents but not the slots outside the range. Those are in `AdjustCapacity`'s contract.
- GrowableDeque.DoubleEndedQueue.Insert: when `AdjustCapacity` runs, states the new layout and contents but not the slots outside the range. Those are in `AdjustCapacity`'s contract.
- GrowableDeque.DoubleEndedQueue.InsertInMiddle: when `AdjustCapacity` runs, states the new layout, the contents and which array `items` is, but not the slots outside the range. Those are in `AdjustCapacity`'s contract.
- GrowableDeque.DoubleEndedQueue.Set: after a removal, or a push that adjusts the capacity, states the layout and contents but not the slot values. `RemoveAt` and `AdjustCapacity` state those.
- Integer overflow of the C# `int` indices and of the doubled capacity is not modelled, because integers are unbounded here. An array large enough to overflow is out of reach in practice.
