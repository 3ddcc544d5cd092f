# Ensemble::Array in Dafny

This project models `Ensemble::Array<T>`, the growable contiguous array of
`src/ensemble/array.cpp`. The array owns a buffer of `m_Allocated` slots,
written `capacity` here. The first `m_Count` slots, written `count`, hold
the live elements. When an operation needs more room, the buffer is
replaced by a larger one.

The project has four modules:

- `Growth` holds the capacity arithmetic of `GetExpandedSize`. Two
  candidates are computed and the smaller is taken:
  - doubling `max(capacity, 1)` until it reaches `capacity + needed`;
  - rounding `needed` up to a multiple of the growth step (a step of 0
    counts as 1) and adding it to `capacity`.
  It also holds the rule `CheckForGrowth` uses to decide whether to grow.
- `Slots` states on sequences what the element moves do to the whole
  buffer: opening a gap (`ShiftedUp`), closing one (`ShiftedDown`) and
  exchanging two slots (`Swapped`). It also specifies the search
  (`FirstIndexOf`), and it holds the source's chunked shift-up loop and
  its `Find` stub exactly as written, for the findings below.
- `Ensemble` holds the class `Array<T>` with the fields `data` (an
  `array<T>`), `count`, `capacity` and the constant `growBy`. Every method
  is proved against those sequence functions and the `Growth` arithmetic.
  `Contents()` is the live prefix `data[..count]`.
- `Clients` holds round trips and concrete scenarios that a caller gets
  from the contracts alone.

Two choices concern operations the source leaves unfinished or unchecked:

- `Find` in the source is a stub that always returns -1, so `Remove` never
  removes anything. The model's `Find` is the first-match linear search
  from `startPos` that the commented-out code and `Remove` point to. The
  stub is kept as `Slots.FindAsWritten` and recorded under "## Findings".
- `operator[]` does not check its index. `At` and `SetAt` require a live
  index.

The source's `nullptr` buffer, which the constructor and `ResizeArray(0)`
produce, is modelled as a buffer of 0 slots.

## Model

| member | source | states |
|---|---|---|
| Ensemble.Array.constructor | src/ensemble/array.cpp:15-22 | A new array has `initialSize` slots, no live elements and the given growth step. |
| Ensemble.Array.CreateArray | src/ensemble/array.cpp:33-42 | The new buffer is fresh and has exactly the requested number of slots (none for size 0). |
| Ensemble.Array.MoveElements | src/ensemble/array.cpp:68-75 | Copying n slots between non-overlapping ranges sets each destination slot to the matching source slot. Every other destination slot keeps its old value. |
| Ensemble.Array.At | src/ensemble/array.cpp:103-107 | Reading through `operator[]` yields the live element at that position. |
| Ensemble.Array.SetAt | src/ensemble/array.cpp:103-107 | Writing through the reference `operator[]` returns replaces exactly that live element. |
| Growth.Step | src/ensemble/array.cpp:174-178 | The growth step actually used is 1 for a configured step of 0 and the configured step otherwise. |
| Growth.Doubling | src/ensemble/array.cpp:180-189 | The doubling loop ends at a value at least as large as both its start and its target. |
| Growth.DoublingIsFirstReaching | src/ensemble/array.cpp:180-189 | The doubling candidate is the start times a power of two. It is the start itself when that already suffices, and otherwise less than twice the target, so the loop stops at the first doubling that reaches the target. |
| Growth.CeilDivIsLeastCoveringMultiple | src/ensemble/array.cpp:191 | `step * ((step + n - 1) / step)` is the least multiple of the step that is at least n. |
| Growth.ExpandedSize | src/ensemble/array.cpp:166-194 | With nothing needed the capacity is unchanged. Otherwise the new capacity covers `capacity + needed`. |
| Growth.ExpandedSizeIsTight | src/ensemble/array.cpp:166-194 | The new capacity exceeds what is needed by less than one growth step, and it is less than twice what is needed. |
| Ensemble.Array.GetExpandedSize | src/ensemble/array.cpp:166-194 | The loop and the rounding compute exactly `ExpandedSize(capacity, growBy, additionalNeeded)`, the smaller of the two candidates. |
| Growth.CapacityFor | src/ensemble/array.cpp:122-131 | The capacity after making room for `required` live elements is at least the old capacity and at least `required`. It is unchanged when the old capacity already suffices. |
| Ensemble.Array.ResizeArray | src/ensemble/array.cpp:432-466 | The buffer then has exactly `newSize` slots. The live elements that fit are kept in order and `count` is cut to `newSize`. A new buffer is allocated only when the size changes. |
| Ensemble.Array.ExpandCapacityBy | src/ensemble/array.cpp:198-205 | The live elements are unchanged and the capacity becomes `ExpandedSize(capacity, growBy, minNeeded)`. |
| Ensemble.Array.CheckForGrowth | src/ensemble/array.cpp:122-131 | The method always reports success and keeps the live elements. The capacity becomes `CapacityFor(capacity, growBy, count + addCount)`. |
| Ensemble.Array.EnsureCapacity | src/ensemble/array.cpp:209-216 | The capacity becomes the larger of the old capacity and `newCapacity`. It never shrinks and the live elements are kept. |
| Ensemble.Array.Append | src/ensemble/array.cpp:111-118 | The live elements become the old ones followed by the item. The capacity follows the growth policy for one more element. |
| Slots.ShiftedUp | src/ensemble/array.cpp:322-351 | After opening a gap, slots below `index + gap` and from `count + gap` up are unchanged. Each slot from `index + gap` to `count + gap` holds the element `gap` slots below it. |
| Ensemble.Array.ShiftElementsUp | src/ensemble/array.cpp:322-351 | When the gap is non-empty, the index is live and the moved elements fit, the chunked end-first loop turns the buffer into exactly `ShiftedUp` of the old buffer. Otherwise the buffer is unchanged. |
| Slots.ShiftedDown | src/ensemble/array.cpp:353-378 | After closing a gap, slots below `index - gap` and from `count - gap` up are unchanged. Each slot from `index - gap` to `count - gap` holds the element `gap` slots above it. |
| Ensemble.Array.ShiftElementsDown | src/ensemble/array.cpp:353-378 | When the gap is non-empty, the index is live and at least `gap`, the chunked front-first loop turns the buffer into exactly `ShiftedDown` of the old buffer. Otherwise the buffer is unchanged. |
| Slots.ShiftDownUndoesShiftUp | src/ensemble/array.cpp:322-378 | Shifting down by the same gap restores the live elements that shifting up moved. |
| Ensemble.Array.CopyWithGap | src/ensemble/array.cpp:149-153 | The enlarged buffer holds the elements before the insertion point at their old positions and the rest `gap` slots higher. |
| Ensemble.Array.CheckForInsertionGrowth | src/ensemble/array.cpp:135-162 | Elements before the insertion point keep their slots and the following live elements move up by `addCount`. This holds whether the shift happens in place or into a new buffer; in place, for an `addCount` of 2 or more, it is the corrected shift of `ShiftElementsUp`. The capacity follows the growth policy and `count` is unchanged. |
| Ensemble.Array.Insert | src/ensemble/array.cpp:307-318 | For an index up to `count`, the live elements become the old prefix, the item, then the old suffix, and the capacity follows the growth policy. An index past the end changes nothing. |
| Ensemble.Array.RemoveAt | src/ensemble/array.cpp:382-402 | For a live index, that element is removed and the others keep their order. Otherwise nothing changes. The buffer and the capacity are always kept. |
| Slots.FirstIndexOf | src/ensemble/array.cpp:226-299 | The result is -1 exactly when no element at or after `from` equals the item. Otherwise it is the position of an equal element at or after `from`, and no element between `from` and it is equal. |
| Ensemble.Array.Find | src/ensemble/array.cpp:220-303 | The linear search returns exactly `FirstIndexOf` of the live elements from `startPos`: the first equal live element at or after `startPos`, or -1 when there is none. |
| Slots.FindAsWritten | src/ensemble/array.cpp:302 | The source's `Find` reports -1 for every item. |
| Slots.FindAsWrittenMissesFirstElement | src/ensemble/array.cpp:302 | For the live elements `[7]` and the item 7, the stub reports -1 where the first-match search gives 0. |
| Ensemble.Array.Remove | src/ensemble/array.cpp:404-419 | It reports a removal exactly when the item is among the live elements. It then removes the first equal live element and the others keep their order; otherwise nothing changes. The buffer and the capacity are kept either way. |
| Ensemble.Array.RemoveLast | src/ensemble/array.cpp:421-428 | The last live element, if any, is dropped and the others are kept. The buffer and the capacity are unchanged. |
| Growth.FullStepWhenNoMargin | src/ensemble/array.cpp:476-480 | When the margin `count - capacity` is 0, the size `AppendNew` resizes to is exactly the old capacity plus one step. |
| Ensemble.Array.AppendNew | src/ensemble/array.cpp:470-492 | One more slot becomes live and its position, the old count, is returned. The previous live elements are kept. A full buffer grows by exactly one growth step and any other buffer keeps its capacity. |
| Slots.Swapped | src/ensemble/array.cpp:496-506 | The two positions exchange their elements and every other element is unchanged. |
| Slots.SwappedTwiceRestores | src/ensemble/array.cpp:496-506 | Exchanging the same two positions twice restores the sequence. |
| Ensemble.Array.SwapThroughScratch | src/ensemble/array.cpp:502-504 | The three one-slot moves through the scratch slot leave every slot below it as before, except that the two positions have exchanged their elements. |
| Ensemble.Array.SwapElements | src/ensemble/array.cpp:496-506 | For two distinct live indices, the live elements become `Swapped` of the old ones and the capacity grows to at least `count + 1` for the scratch slot. Otherwise nothing changes. |
| Slots.ChunkedShiftUpAsWritten | src/ensemble/array.cpp:329-343 | When the loop as written stays within the buffer, it returns a buffer of the original length. Its rounds are the source's, partial last round included. |
| Slots.ChunkedShiftUpAsWrittenGapOneFrom | src/ensemble/array.cpp:335-342 | With gap 1, once the elements from `top` on have moved up one slot, the remaining rounds of the loop as written finish exactly at `ShiftedUp` from `index`. |
| Slots.ChunkedShiftUpAsWrittenGapOne | src/ensemble/array.cpp:329-343 | With gap 1, the only gap `Insert` uses, the loop as written turns the buffer into exactly `ShiftedUp`. |
| Slots.ChunkedShiftUpAsWrittenLosesAnElement | src/ensemble/array.cpp:335-342 | With gap 2, six live elements and index 1, the loop as written yields a buffer that differs from `ShiftedUp`. |
| Slots.ChunkedShiftUpAsWrittenReadsBelowZero | src/ensemble/array.cpp:335-342 | With gap 2, five live elements and index 0, the last round reads out of bounds: its index `v5 - gap` wraps below 0. |
| Clients.AppendThenRemoveLast | src/ensemble/array.cpp:111-118 | Appending and then removing the last element restores the live elements and never shrinks the capacity. |
| Clients.InsertThenRemoveAt | src/ensemble/array.cpp:307-318 | Inserting and then removing at the same index restores the live elements, for every index including those `Insert` ignores. |
| Clients.SwapTwice | src/ensemble/array.cpp:496-506 | Swapping the same two indices twice restores the live elements. |
| Clients.FourByFourGrowth | src/ensemble/array.cpp:166-194 | With 4 slots and step 4, room for up to four live elements keeps 4 slots, and room for five gives 8. |
| Clients.FourAppendsFitInFour | src/ensemble/array.cpp:111-118 | An array created with 4 slots and step 4 takes four appends without growing and holds them in order. |
| Clients.FiveAppendsGrowToEight | src/ensemble/array.cpp:166-194 | The fifth append to that array grows it to 8 slots and keeps all five elements in order. |
| Clients.InsertIntoEmpty | src/ensemble/array.cpp:307-318 | Inserting into an array created with no slots gives exactly one element in exactly one slot, whatever the growth step. |

## Left out

- Destructors, `DisposeArray` and `RemoveElements` are not modelled. As written they are undefined behaviour. `RemoveElements` runs `delete` on single slots of a `new T[]` buffer, and `RemoveAt` calls it on every removal; at index 0 that deletes the live buffer itself, which `RemoveAt` then goes on using. `DisposeArray` frees `new T[]` memory with scalar `delete`. The model keeps the elements' values and does not reproduce these frees.
- `CreateEmptyElements` and the disabled `#else` branch of `AppendNew` are not modelled, because they are compiled out.
- The `nullptr` buffer is modelled as a buffer of 0 slots. The null checks of `AddElements` and `MoveElements` are therefore not modelled.
- `uint` and `int` overflow is not modelled. Counts and capacities are unbounded naturals, so a doubling or `count + addCount` that wraps around 2^32 is not represented.
- Allocation failure of `new T[n]` is not modelled.
- The contents of the slot `AppendNew` makes live are not stated. They are whatever the buffer held there. In a new buffer that is a default-initialized slot, which is indeterminate for scalar and other trivially constructible types.
- `memcpy` copies bytes. Here whole elements are copied, which is the same for the trivially copyable element types the code relies on.
- Ensemble.Array.MoveElements: requires the two ranges not to overlap, as `memcpy` does. Every caller in the model meets this, including the corrected chunked shift.
- Ensemble.Array.At, Ensemble.Array.SetAt: require a live index. In the source, reading or storing through `operator[]` into a spare slot below `capacity` is defined, but the model does not cover it. Anything beyond `capacity` is undefined behaviour.
- Ensemble.Array.Find: models the intended first-match search, not the source's stub, which always returns -1 (see "## Findings"). The comparison is element equality, not the byte-wise comparison of the commented-out code.
- Ensemble.Array.Remove: follows the search it calls. With the source's stub it would always report false and change nothing.
- Ensemble.Array.Append: takes the item by value. The source takes a reference and reads it only after `CheckForGrowth` may have freed the old buffer, so appending an element of the same array reads freed memory when the buffer grows. The model does not capture this aliasing.
- Ensemble.Array.Insert: takes the item by value. The source takes a pointer, which causes three differences the model does not capture. An element of the same array is read after the reallocation path has freed the old buffer. On the in-place path it is read after `ShiftElementsUp`, so inserting `&a[k]` at an index below k inserts the old `a[k - 1]`. A null pointer leaves the new slot unwritten, but `m_Count` is still incremented.
- Ensemble.Array.ShiftElementsUp: models the evidently intended final partial chunk, which is moved from `top - chunk` to `top - chunk + gap`. For gap 1, the only gap `Insert` passes, this is the same as the source. The finding below records the difference for larger gaps.
- Ensemble.Array.CheckForInsertionGrowth: passes `addCount` to `ShiftElementsUp` as the gap, so for an `addCount` of 2 or more its in-place path moves the corrected partial chunk, not the source's. `Insert`, its only caller in the source, passes 1, where the two agree.

## Findings

| source | as written | input that shows it | evidently intended | confidence | as-written member | corrected member |
|---|---|---|---|---|---|---|
| src/ensemble/array.cpp:335-342 | Each round of the shift-up loop copies `min(gap, remaining)` elements from `v5 - gap` to `v5`, also in the last, partial round. | Buffer of 8, `count` 6, index 1, gap 2: slot 2 receives element 0, element 1 is lost and element 3 appears twice. Buffer of 7, `count` 5, index 0, gap 2: the last round reads out of bounds, because `v5 - gap` is computed unsigned and wraps below 0. | The last, partial chunk moves the `remaining` elements below `v5`, from `v5 - remaining` to `v5 - remaining + gap`, which opens the gap with every live element kept. | not executed | Slots.ChunkedShiftUpAsWritten | Ensemble.Array.ShiftElementsUp |
| src/ensemble/array.cpp:220-303 | `Find` returns -1 for every item, because its search is commented out, so `Remove` never removes anything. | Live elements `[7]`, item 7: `Find` reports -1, and `Remove(7)` reports false and keeps the element. | `Find` returns the first live element equal to the item at or after `startPos`, as the commented-out loop from `startPos` to `m_Count` sets out to do, and `Remove` removes it. | not executed | Slots.FindAsWritten | Ensemble.Array.Find |
