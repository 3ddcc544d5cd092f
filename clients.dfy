/**
 * What a caller of Ensemble::Array can rely on from the contracts of its
 * operations alone: round trips between operations, and the capacity
 * reached in two concrete growth scenarios.
 */
module Clients {
  import opened Growth
  import opened Slots
  import opened Ensemble

  /** Append followed by RemoveLast gives back the previous count and live elements. */
  method AppendThenRemoveLast<T(0,==)>(a: Array<T>, x: T)
    requires a.Valid()
    modifies a, a.data
    ensures a.Valid() && a.count == old(a.count) && a.Contents() == old(a.Contents())
    ensures a.capacity >= old(a.capacity)
  {
    a.Append(x);
    a.RemoveLast();
  }

  /** Insert followed by RemoveAt at the same position gives back the previous live elements. */
  method InsertThenRemoveAt<T(0,==)>(a: Array<T>, x: T, index: nat)
    requires a.Valid()
    modifies a, a.data
    ensures a.Valid() && a.count == old(a.count) && a.Contents() == old(a.Contents())
  {
    a.Insert(x, index);
    a.RemoveAt(index);
    assert index <= old(a.count) ==> a.Contents() == old(a.Contents())[..index] + old(a.Contents())[index..];
  }

  /** SwapElements applied twice to the same positions gives back the previous live elements. */
  method SwapTwice<T(0,==)>(a: Array<T>, index1: nat, index2: nat)
    requires a.Valid()
    modifies a, a.data
    ensures a.Valid() && a.count == old(a.count) && a.Contents() == old(a.Contents())
  {
    a.SwapElements(index1, index2);
    a.SwapElements(index1, index2);
    if index1 < a.count && index2 < a.count && index1 != index2 {
      SwappedTwiceRestores(old(a.Contents()), index1, index2);
    }
  }

  /**
   * With 4 slots and a growth step of 4, room for up to four live elements
   * needs no growth, and room for a fifth gives 8 slots: the doubling and
   * the linear candidate are both 8.
   */
  lemma FourByFourGrowth()
    ensures forall required :: 0 <= required <= 4 ==> CapacityFor(4, 4, required) == 4
    ensures CapacityFor(4, 4, 5) == 8
  {
    assert CeilDiv(1, 4) == 1;
    assert Doubling(4, 5) == 8 by {
      assert Doubling(8, 5) == 8;
    }
  }

  /** An array created with 4 slots and a growth step of 4 holds four appended elements without growing. */
  method FourAppendsFitInFour() returns (a: Array<int>)
    ensures fresh(a) && fresh(a.data) && a.Valid() && a.growBy == 4
    ensures a.capacity == 4 && a.Contents() == [1, 2, 3, 4]
  {
    FourByFourGrowth();
    a := new Array<int>(4, 4);
    a.Append(1);
    assert a.capacity == 4 && a.Contents() == [1];
    a.Append(2);
    assert a.capacity == 4 && a.Contents() == [1, 2];
    a.Append(3);
    assert a.capacity == 4 && a.Contents() == [1, 2, 3];
    a.Append(4);
  }

  /** The fifth append to that array grows it to 8 slots. */
  method FiveAppendsGrowToEight() returns (contents: seq<int>, capacity: nat)
    ensures contents == [1, 2, 3, 4, 5] && capacity == 8
  {
    FourByFourGrowth();
    var a := FourAppendsFitInFour();
    a.Append(5);
    contents := a.data[..a.count];
    capacity := a.capacity;
  }

  /** Inserting at position 0 of an array created with no slots gives one element in exactly one slot. */
  method InsertIntoEmpty(growBy: nat, x: int) returns (contents: seq<int>, capacity: nat)
    ensures contents == [x] && capacity == 1
  {
    var a := new Array<int>(0, growBy);
    a.Insert(x, 0);
    assert CeilDiv(1, Step(growBy)) == 1;
    contents := a.data[..a.count];
    capacity := a.capacity;
  }
}
