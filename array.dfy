/**
 * Ensemble::Array<T>: a growable contiguous array. The buffer `data` has
 * `capacity` slots; the first `count` of them are the live elements.
 * A buffer of 0 slots stands for the source's null pointer.
 */
module Ensemble {
  import opened Growth
  import opened Slots

  class Array<T(0,==)> {
    var data: array<T>
    var count: nat
    var capacity: nat
    const growBy: nat

    /** The buffer has exactly `capacity` slots and holds all live elements. */
    ghost predicate Valid()
      reads this
    {
      data.Length == capacity && count <= capacity
    }

    /** The live elements, in order. */
    ghost function Contents(): seq<T>
      reads this, data
      requires Valid()
    {
      data[..count]
    }

    constructor (initialSize: nat, growBy: nat)
      ensures Valid() && fresh(data)
      ensures capacity == initialSize && this.growBy == growBy
      ensures count == 0 && Contents() == []
    {
      this.growBy := growBy;
      capacity := initialSize;
      count := 0;
      var buffer := CreateArray(initialSize);
      data := buffer;
    }

    /** A fresh buffer of `size` default-initialized slots (none at all for size 0). */
    static method CreateArray(size: nat) returns (a: array<T>)
      ensures fresh(a) && a.Length == size
    {
      a := new T[size];
    }

    /**
     * Copies n slots of src, from srcStart, over the n slots of dst from
     * dstStart. Like the memcpy it stands for, the two ranges must not overlap.
     */
    static method MoveElements(src: array<T>, srcStart: nat, dst: array<T>, dstStart: nat, n: nat)
      requires srcStart + n <= src.Length && dstStart + n <= dst.Length
      requires src == dst ==> srcStart + n <= dstStart || dstStart + n <= srcStart
      modifies dst
      ensures forall k :: 0 <= k < dstStart || dstStart + n <= k < dst.Length ==> dst[k] == old(dst[k])
      ensures forall k :: dstStart <= k < dstStart + n ==> dst[k] == old(src[k - dstStart + srcStart])
    {
      forall k | 0 <= k < n {
        dst[dstStart + k] := src[srcStart + k];
      }
    }

    /** The live element at `index`; the source does not check the index, its callers must. */
    method At(index: nat) returns (x: T)
      requires Valid() && index < count
      ensures x == Contents()[index]
    {
      x := data[index];
    }

    /** Stores x through the reference that operator[] returns. */
    method SetAt(index: nat, x: T)
      requires Valid() && index < count
      modifies data
      ensures Valid() && Contents() == old(Contents())[index := x]
    {
      data[index] := x;
    }

    /** The capacity after expanding by `additionalNeeded`: the smaller of the doubling and linear candidates. */
    method GetExpandedSize(additionalNeeded: nat) returns (size: nat)
      ensures size == ExpandedSize(capacity, growBy, additionalNeeded)
    {
      if additionalNeeded < 1 {
        return capacity;
      }
      var step := growBy;
      if step < 1 {
        step := 1;
      }
      var doubled := capacity;
      if doubled < 1 {
        doubled := 1;
      }
      while doubled < capacity + additionalNeeded
        invariant doubled >= 1
        invariant Doubling(doubled, capacity + additionalNeeded) == DoublingCandidate(capacity, additionalNeeded)
        decreases capacity + additionalNeeded - doubled
      {
        doubled := doubled * 2;
      }
      var rounded := (step + additionalNeeded - 1) / step;
      assert step == Step(growBy) && rounded == CeilDiv(additionalNeeded, step);
      var linear := capacity + step * rounded;
      size := if linear < doubled then linear else doubled;
    }

    /**
     * Reallocates the buffer to exactly newSize slots, keeping the live
     * elements that fit; nothing happens when the size is already newSize.
     */
    method ResizeArray(newSize: nat)
      requires Valid()
      modifies this
      ensures Valid()
      ensures newSize == old(capacity) ==> data == old(data) && count == old(count)
      ensures newSize != old(capacity) ==> fresh(data)
      ensures capacity == newSize
      ensures count == if newSize < old(count) then newSize else old(count)
      ensures Contents() == old(Contents())[..count]
    {
      if newSize != capacity {
        if newSize != 0 {
          var newData := CreateArray(newSize);
          if count != 0 {
            MoveElements(data, 0, newData, 0, if count < newSize then count else newSize);
            if count > newSize {
              count := newSize;
            }
          }
          data := newData;
          capacity := newSize;
        } else {
          data := CreateArray(0);
          count := 0;
          capacity := 0;
        }
      }
    }

    /** Grows the buffer by at least minNeeded slots, by the growth policy; keeps the live elements. */
    method ExpandCapacityBy(minNeeded: nat)
      requires Valid()
      modifies this
      ensures Valid() && (data == old(data) || fresh(data))
      ensures count == old(count) && Contents() == old(Contents())
      ensures capacity == ExpandedSize(old(capacity), growBy, minNeeded)
    {
      if minNeeded > 0 {
        var size := GetExpandedSize(minNeeded);
        ResizeArray(size);
      }
    }

    /** Makes room for addCount more live elements, growing by the policy only when needed. */
    method CheckForGrowth(addCount: nat) returns (ok: bool)
      requires Valid()
      modifies this
      ensures Valid() && ok && (data == old(data) || fresh(data))
      ensures count == old(count) && Contents() == old(Contents())
      ensures capacity == CapacityFor(old(capacity), growBy, old(count) + addCount)
    {
      if count + addCount > capacity {
        ExpandCapacityBy(count + addCount - capacity);
      }
      return true;
    }

    /** Reserves exactly newCapacity slots if there are fewer; never shrinks. */
    method EnsureCapacity(newCapacity: nat)
      requires Valid()
      modifies this
      ensures Valid() && (data == old(data) || fresh(data))
      ensures count == old(count) && Contents() == old(Contents())
      ensures capacity == if old(capacity) < newCapacity then newCapacity else old(capacity)
    {
      if capacity < newCapacity {
        ResizeArray(newCapacity);
      }
    }

    /** Adds item after the last live element. */
    method Append(item: T)
      requires Valid()
      modifies this, data
      ensures Valid() && (data == old(data) || fresh(data))
      ensures Contents() == old(Contents()) + [item]
      ensures capacity == CapacityFor(old(capacity), growBy, old(count) + 1)
    {
      var ok := CheckForGrowth(1);
      if ok {
        data[count] := item;
        count := count + 1;
      }
    }

    /**
     * Opens a gap of `gap` slots at `index` by moving the live elements from
     * index on up by `gap`, end first, in chunks of at most `gap` elements so
     * that no chunk overlaps its destination. Does nothing unless the gap is
     * non-empty, index is a live position and the moved elements fit.
     */
    method ShiftElementsUp(index: nat, gap: nat)
      requires Valid()
      modifies data
      ensures gap != 0 && index < count && count + gap <= capacity ==>
                data[..] == ShiftedUp(old(data[..]), count, index, gap)
      ensures !(gap != 0 && index < count && count + gap <= capacity) ==> data[..] == old(data[..])
    {
      if gap != 0 {
        if index < count && count + gap <= capacity {
          var remaining := count - index;
          if remaining > gap {
            var top := count;
            while remaining != 0
              invariant index <= top <= count && remaining == top - index
              invariant forall k :: 0 <= k < top + gap || count + gap <= k < data.Length ==> data[k] == old(data[k])
              invariant forall k :: top + gap <= k < count + gap ==> data[k] == old(data[k - gap])
            {
              var chunk := if gap < remaining then gap else remaining;
              var from := top - chunk;
              MoveElements(data, from, data, from + gap, chunk);
              top := from;
              remaining := remaining - chunk;
            }
          } else {
            MoveElements(data, index, data, index + gap, remaining);
          }
          ShiftedUpByElements(old(data[..]), data[..], count, index, gap);
        }
      }
    }

    /**
     * Closes a gap of `gap` slots below `index` by moving the live elements
     * from index on down by `gap`, front first, in chunks of at most `gap`
     * elements. Does nothing unless the gap is non-empty, index is a live
     * position and there are `gap` slots below it.
     */
    method ShiftElementsDown(index: nat, gap: nat)
      requires Valid()
      modifies data
      ensures gap != 0 && index < count && index >= gap ==>
                data[..] == ShiftedDown(old(data[..]), count, index, gap)
      ensures !(gap != 0 && index < count && index >= gap) ==> data[..] == old(data[..])
    {
      if gap != 0 {
        if index < count && index >= gap {
          var remaining := count - index;
          if remaining > gap {
            var i := index;
            while remaining != 0
              invariant index <= i <= count && remaining == count - i
              invariant forall k :: 0 <= k < index - gap || i - gap <= k < data.Length ==> data[k] == old(data[k])
              invariant forall k :: index - gap <= k < i - gap ==> data[k] == old(data[k + gap])
            {
              var chunk := if gap < remaining then gap else remaining;
              MoveElements(data, i, data, i - gap, chunk);
              i := i + chunk;
              remaining := remaining - chunk;
            }
          } else {
            MoveElements(data, index, data, index - gap, remaining);
          }
          ShiftedDownByElements(old(data[..]), data[..], count, index, gap);
        }
      }
    }

    /**
     * Prepares the buffer for addCount elements to be written at insertPoint:
     * the live elements before insertPoint stay where they are, the others
     * move up by addCount, either in place or while moving to a larger buffer.
     */
    method CheckForInsertionGrowth(insertPoint: nat, addCount: nat) returns (ok: bool)
      requires Valid() && insertPoint <= count
      modifies this, data
      ensures Valid() && ok && (data == old(data) || fresh(data))
      ensures count == old(count)
      ensures capacity == CapacityFor(old(capacity), growBy, old(count) + addCount)
      ensures forall k :: 0 <= k < insertPoint ==> data[k] == old(data[k])
      ensures forall k :: insertPoint + addCount <= k < count + addCount ==> data[k] == old(data[k - addCount])
    {
      if insertPoint == count {
        ok := CheckForGrowth(addCount);
        return;
      }
      if count + addCount <= capacity {
        ShiftElementsUp(insertPoint, addCount);
        assert addCount != 0 ==> data[..] == ShiftedUp(old(data[..]), count, insertPoint, addCount);
      } else {
        var expandedSize := GetExpandedSize(addCount + count - capacity);
        var newArray := CopyWithGap(data, count, insertPoint, addCount, expandedSize);
        data := newArray;
        capacity := expandedSize;
      }
      ok := true;
    }

    /**
     * A fresh buffer of `size` slots holding the first `count` slots of src
     * with a gap of `gap` slots opened at insertPoint.
     */
    static method CopyWithGap(src: array<T>, count: nat, insertPoint: nat, gap: nat, size: nat) returns (dst: array<T>)
      requires insertPoint <= count <= src.Length && count + gap <= size
      ensures fresh(dst) && dst.Length == size
      ensures forall k :: 0 <= k < insertPoint ==> dst[k] == src[k]
      ensures forall k :: insertPoint + gap <= k < count + gap ==> dst[k] == src[k - gap]
    {
      dst := CreateArray(size);
      MoveElements(src, 0, dst, 0, insertPoint);
      MoveElements(src, insertPoint, dst, insertPoint + gap, count - insertPoint);
    }

    /** Inserts item before the live element at index; does nothing when index is past the end. */
    method Insert(item: T, index: nat)
      requires Valid()
      modifies this, data
      ensures Valid() && (data == old(data) || fresh(data))
      ensures index <= old(count) ==>
                Contents() == old(Contents())[..index] + [item] + old(Contents())[index..] &&
                capacity == CapacityFor(old(capacity), growBy, old(count) + 1)
      ensures index > old(count) ==>
                Contents() == old(Contents()) && capacity == old(capacity) && data == old(data)
    {
      if index <= count {
        ghost var live := Contents();
        var ok := CheckForInsertionGrowth(index, 1);
        if ok {
          data[index] := item;
          count := count + 1;
          forall k | 0 <= k < count
            ensures data[k] == (live[..index] + [item] + live[index..])[k]
          {
            if k > index {
              assert data[k] == old(data[k - 1]) == live[k - 1];
            }
          }
        }
      }
    }

    /** Removes the live element at index; does nothing when index is not a live position. */
    method RemoveAt(index: nat)
      requires Valid()
      modifies this, data
      ensures Valid() && data == old(data) && capacity == old(capacity)
      ensures index < old(count) ==>
                count == old(count) - 1 && Contents() == old(Contents())[..index] + old(Contents())[index + 1..]
      ensures index >= old(count) ==> count == old(count) && Contents() == old(Contents())
    {
      if index < count {
        if index < count - 1 {
          ShiftElementsDown(index + 1, 1);
        }
        count := count - 1;
      }
    }

    /**
     * The position of the first live element equal to item at or after
     * startPos, or -1 when there is none.
     */
    method Find(item: T, startPos: nat := 0) returns (index: int)
      requires Valid()
      ensures index == FirstIndexOf(Contents(), item, startPos)
    {
      if count != 0 && startPos < count {
        var i := startPos;
        while i < count
          invariant startPos <= i <= count
          invariant forall k :: startPos <= k < i ==> data[k] != item
        {
          if data[i] == item {
            return i;
          }
          i := i + 1;
        }
      }
      return -1;
    }

    /**
     * Removes the first live element equal to item, if there is one, and
     * says whether it removed one.
     */
    method Remove(item: T) returns (removed: bool)
      requires Valid()
      modifies this, data
      ensures Valid() && data == old(data) && capacity == old(capacity)
      ensures removed <==> item in old(Contents())
      ensures !removed ==> count == old(count) && Contents() == old(Contents())
      ensures removed ==> (var i := FirstIndexOf(old(Contents()), item, 0);
                           0 <= i < old(count) && count == old(count) - 1 &&
                           Contents() == old(Contents())[..i] + old(Contents())[i + 1..])
    {
      var index := Find(item);
      if index == -1 {
        assert item !in Contents();
        return false;
      }
      assert Contents()[index] == item;
      RemoveAt(index);
      return true;
    }

    /** Removes the last live element, if there is one. */
    method RemoveLast()
      requires Valid()
      modifies this, data
      ensures Valid() && data == old(data) && capacity == old(capacity)
      ensures old(count) == 0 ==> count == 0 && Contents() == old(Contents())
      ensures old(count) > 0 ==> count == old(count) - 1 && Contents() == old(Contents())[..count]
    {
      if count != 0 {
        RemoveAt(count - 1);
      }
    }

    /**
     * Makes one more slot live and returns its position, the old count. A
     * full buffer grows by exactly one growth step. The new slot's contents
     * are whatever the buffer held there.
     */
    method AppendNew() returns (slot: nat)
      requires Valid()
      modifies this
      ensures Valid() && (data == old(data) || fresh(data))
      ensures count == old(count) + 1 && slot == old(count)
      ensures Contents()[..old(count)] == old(Contents())
      ensures capacity == if old(count) == old(capacity) then old(capacity) + Step(growBy) else old(capacity)
    {
      if count + 1 > capacity {
        var margin: int := count - capacity;
        if margin + 1 != 0 {
          var step := if growBy == 0 then 1 else growBy;
          assert margin == 0 && step == Step(growBy);
          FullStepWhenNoMargin(capacity, step, margin);
          ResizeArray(capacity + step + margin - (step + margin) % step);
        }
      }
      count := count + 1;
      slot := count - 1;
    }

    /**
     * The three moves of SwapElements: the slot at i into the scratch slot,
     * the slot at j into i, the scratch slot into j. Below the scratch slot,
     * the net effect is the exchange of i and j.
     */
    static method SwapThroughScratch(a: array<T>, i: nat, j: nat, scratch: nat)
      requires i < scratch && j < scratch && i != j && scratch < a.Length
      modifies a
      ensures a[..scratch] == Swapped(old(a[..scratch]), i, j)
    {
      ghost var before := a[..];
      MoveElements(a, i, a, scratch, 1);
      assert a[..] == before[scratch := before[i]];
      MoveElements(a, j, a, i, 1);
      assert a[..] == before[scratch := before[i]][i := before[j]];
      MoveElements(a, scratch, a, j, 1);
      assert a[..] == before[scratch := before[i]][i := before[j]][j := before[i]];
    }

    /**
     * Exchanges the live elements at index1 and index2, using the slot
     * after the last live element as scratch space (reserving it first).
     * Equal or non-live indices leave everything unchanged.
     */
    method SwapElements(index1: nat, index2: nat)
      requires Valid()
      modifies this, data
      ensures Valid() && (data == old(data) || fresh(data)) && count == old(count)
      ensures index1 < old(count) && index2 < old(count) && index1 != index2 ==>
                Contents() == Swapped(old(Contents()), index1, index2) &&
                capacity == (if old(capacity) < old(count) + 1 then old(count) + 1 else old(capacity))
      ensures !(index1 < old(count) && index2 < old(count) && index1 != index2) ==>
                Contents() == old(Contents()) && capacity == old(capacity) && data == old(data)
    {
      if index1 < count && index2 < count && index1 != index2 {
        EnsureCapacity(count + 1);
        SwapThroughScratch(data, index1, index2, count);
      }
    }
  }
}
