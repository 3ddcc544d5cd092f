/**
 * What the element moves of Ensemble::Array do to the whole buffer, stated
 * on sequences: opening a gap (shift up), closing one (shift down) and
 * exchanging two slots. Also the first-match search that Find performs.
 * The class in module Ensemble is proved to turn its array into exactly
 * these values. The source's chunked shift-up loop and its Find stub are
 * kept here as written, next to lemmas that show where they differ.
 */
module Slots {

  datatype Option<T> = None | Some(value: T)

  /**
   * The buffer after the live elements from `index` to `count` have moved
   * up by `gap` slots. Slots below index + gap keep their old contents,
   * so the opened gap still holds whatever was there.
   */
  function ShiftedUp<T>(buf: seq<T>, count: nat, index: nat, gap: nat): (r: seq<T>)
    requires index <= count && count + gap <= |buf|
    ensures |r| == |buf|
    ensures forall k :: 0 <= k < index + gap ==> r[k] == buf[k]
    ensures forall k :: index + gap <= k < count + gap ==> r[k] == buf[k - gap]
    ensures forall k :: count + gap <= k < |buf| ==> r[k] == buf[k]
  {
    buf[..index + gap] + buf[index..count] + buf[count + gap..]
  }

  /**
   * The buffer after the live elements from `index` to `count` have moved
   * down by `gap` slots, over the `gap` slots just below `index`. The top
   * `gap` slots of the old live range keep their old contents.
   */
  function ShiftedDown<T>(buf: seq<T>, count: nat, index: nat, gap: nat): (r: seq<T>)
    requires gap <= index <= count <= |buf|
    ensures |r| == |buf|
    ensures forall k :: 0 <= k < index - gap ==> r[k] == buf[k]
    ensures forall k :: index - gap <= k < count - gap ==> r[k] == buf[k + gap]
    ensures forall k :: count - gap <= k < |buf| ==> r[k] == buf[k]
  {
    buf[..index - gap] + buf[index..count] + buf[count - gap..]
  }

  /** A buffer that agrees slot by slot with the shift-up of buf is that shift-up. */
  lemma ShiftedUpByElements<T>(buf: seq<T>, r: seq<T>, count: nat, index: nat, gap: nat)
    requires index <= count && count + gap <= |buf| && |r| == |buf|
    requires forall k :: 0 <= k < index + gap || count + gap <= k < |buf| ==> r[k] == buf[k]
    requires forall k :: index + gap <= k < count + gap ==> r[k] == buf[k - gap]
    ensures r == ShiftedUp(buf, count, index, gap)
  {
  }

  /** A buffer that agrees slot by slot with the shift-down of buf is that shift-down. */
  lemma ShiftedDownByElements<T>(buf: seq<T>, r: seq<T>, count: nat, index: nat, gap: nat)
    requires gap <= index <= count <= |buf| && |r| == |buf|
    requires forall k :: 0 <= k < index - gap || count - gap <= k < |buf| ==> r[k] == buf[k]
    requires forall k :: index - gap <= k < count - gap ==> r[k] == buf[k + gap]
    ensures r == ShiftedDown(buf, count, index, gap)
  {
  }

  /** Shifting down by the same gap closes the gap shift-up opened: the live elements come back. */
  lemma ShiftDownUndoesShiftUp<T>(buf: seq<T>, count: nat, index: nat, gap: nat)
    requires index <= count && count + gap <= |buf|
    ensures ShiftedDown(ShiftedUp(buf, count, index, gap), count + gap, index + gap, gap)[..count] == buf[..count]
  {
    var up := ShiftedUp(buf, count, index, gap);
    var down := ShiftedDown(up, count + gap, index + gap, gap);
    forall k | 0 <= k < count
      ensures down[k] == buf[k]
    {
      if k >= index {
        assert down[k] == up[k + gap];
      }
    }
  }

  /**
   * The position of the first element of s equal to item at or after
   * `from`, or -1 when there is none.
   */
  function FirstIndexOf<T(==)>(s: seq<T>, item: T, from: nat): (r: int)
    ensures r == -1 <==> forall k :: from <= k < |s| ==> s[k] != item
    ensures r != -1 ==> from <= r < |s| && s[r] == item && forall k :: from <= k < r ==> s[k] != item
    decreases |s| - from
  {
    if from >= |s| then -1
    else if s[from] == item then from
    else FirstIndexOf(s, item, from + 1)
  }

  /**
   * Array::Find as the source writes it: the search is commented out and
   * every item is reported absent.
   */
  function FindAsWritten<T>(live: seq<T>, item: T, startPos: nat): (r: int)
    ensures r == -1
  {
    -1
  }

  /**
   * The search as written misses an item that is the very first live
   * element, which the first-match search finds at position 0; Remove,
   * which relies on it, therefore never removes anything.
   */
  lemma FindAsWrittenMissesFirstElement()
    ensures FindAsWritten([7], 7, 0) == -1
    ensures FirstIndexOf([7], 7, 0) == 0
  {
  }

  /** The sequence with the elements at i and j exchanged. */
  function Swapped<T>(s: seq<T>, i: nat, j: nat): (r: seq<T>)
    requires i < |s| && j < |s|
    ensures |r| == |s| && r[i] == s[j] && r[j] == s[i]
    ensures forall k :: 0 <= k < |s| && k != i && k != j ==> r[k] == s[k]
  {
    s[i := s[j]][j := s[i]]
  }

  /** Exchanging the same two elements twice restores the sequence. */
  lemma SwappedTwiceRestores<T>(s: seq<T>, i: nat, j: nat)
    requires i < |s| && j < |s|
    ensures Swapped(Swapped(s, i, j), i, j) == s
  {
  }

  /**
   * The chunked loop of Array::ShiftElementsUp exactly as the source writes
   * it. `top` is the end of the part still to move and `remaining` its
   * length; each round copies min(gap, remaining) elements, but it always
   * copies them FROM top - gap, also in the last, partial round, where the
   * elements to move start at top - remaining. None stands for a read out of
   * bounds: the source computes top - gap unsigned, so it wraps below 0.
   */
  function ChunkedShiftUpAsWritten<T>(buf: seq<T>, top: nat, remaining: nat, gap: nat): (r: Option<seq<T>>)
    requires gap >= 1 && remaining <= top && top + gap <= |buf|
    ensures r.Some? ==> |r.value| == |buf|
    decreases remaining
  {
    if remaining == 0 then Some(buf)
    else
      var chunk := if gap < remaining then gap else remaining;
      if top < gap then None
      else
        var moved := buf[..top] + buf[top - gap..top - gap + chunk] + buf[top + chunk..];
        ChunkedShiftUpAsWritten(moved, top - chunk, remaining - chunk, gap)
  }

  /**
   * With a gap of 1 every round is a full chunk. Once the elements from
   * `top` on have moved up by one slot, the rounds still to run finish
   * moving those from `index` on, so the loop as written opens the gap
   * correctly.
   */
  lemma {:induction false} ChunkedShiftUpAsWrittenGapOneFrom<T>(buf: seq<T>, count: nat, index: nat, top: nat)
    requires index <= top <= count && count + 1 <= |buf|
    ensures ChunkedShiftUpAsWritten(ShiftedUp(buf, count, top, 1), top, top - index, 1)
         == Some(ShiftedUp(buf, count, index, 1))
    decreases top - index
  {
    if top > index {
      var state := ShiftedUp(buf, count, top, 1);
      var next := ShiftedUp(buf, count, top - 1, 1);
      var moved := state[..top] + state[top - 1..top] + state[top + 1..];
      forall k | 0 <= k < |buf|
        ensures moved[k] == next[k]
      {
        if k < top {
          assert moved[k] == state[k];
        } else if k == top {
          assert moved[k] == state[top - 1];
        } else {
          assert moved[k] == state[k];
        }
      }
      assert moved == next;
      assert ChunkedShiftUpAsWritten(state, top, top - index, 1)
          == ChunkedShiftUpAsWritten(next, top - 1, top - 1 - index, 1);
      ChunkedShiftUpAsWrittenGapOneFrom(buf, count, index, top - 1);
    }
  }

  /**
   * With a gap of 1, the only gap Array::Insert uses, the loop as written
   * turns the buffer into exactly ShiftedUp.
   */
  lemma ChunkedShiftUpAsWrittenGapOne<T>(buf: seq<T>, count: nat, index: nat)
    requires index <= count && count + 1 <= |buf|
    ensures ChunkedShiftUpAsWritten(buf, count, count - index, 1) == Some(ShiftedUp(buf, count, index, 1))
  {
    assert ShiftedUp(buf, count, count, 1) == buf;
    ChunkedShiftUpAsWrittenGapOneFrom(buf, count, index, count);
  }

  /**
   * With a gap of 2, six live elements and index 1, the loop as written
   * loses element 1 and duplicates element 3: slots 3..7 should hold the
   * old live elements 1..5.
   */
  lemma ChunkedShiftUpAsWrittenLosesAnElement()
    ensures ChunkedShiftUpAsWritten([0, 1, 2, 3, 4, 5, 6, 7], 6, 5, 2) == Some([0, 1, 0, 3, 2, 3, 4, 5])
    ensures ShiftedUp([0, 1, 2, 3, 4, 5, 6, 7], 6, 1, 2) == [0, 1, 2, 1, 2, 3, 4, 5]
  {
    var b0: seq<int> := [0, 1, 2, 3, 4, 5, 6, 7];
    assert b0[..6] == [0, 1, 2, 3, 4, 5] && b0[4..6] == [4, 5] && b0[8..] == [];
    var b1 := b0[..6] + b0[4..6] + b0[8..];
    assert b1 == [0, 1, 2, 3, 4, 5, 4, 5];
    assert b1[..4] == [0, 1, 2, 3] && b1[2..4] == [2, 3] && b1[6..] == [4, 5];
    var b2 := b1[..4] + b1[2..4] + b1[6..];
    assert b2 == [0, 1, 2, 3, 2, 3, 4, 5];
    assert b2[..2] == [0, 1] && b2[0..1] == [0] && b2[3..] == [3, 2, 3, 4, 5];
    var b3 := b2[..2] + b2[0..1] + b2[3..];
    assert b3 == [0, 1, 0, 3, 2, 3, 4, 5];
    assert ChunkedShiftUpAsWritten(b3, 1, 0, 2) == Some(b3);
    assert ChunkedShiftUpAsWritten(b2, 2, 1, 2) == Some(b3);
    assert ChunkedShiftUpAsWritten(b1, 4, 3, 2) == Some(b3);
    assert b0[..3] == [0, 1, 2] && b0[1..6] == [1, 2, 3, 4, 5] && b0[8..] == [];
  }

  /** With a gap of 2, five live elements and index 0, the index of the last round, top - gap, wraps below 0. */
  lemma ChunkedShiftUpAsWrittenReadsBelowZero()
    ensures ChunkedShiftUpAsWritten([0, 1, 2, 3, 4, 5, 6], 5, 5, 2) == None
  {
    var b0: seq<int> := [0, 1, 2, 3, 4, 5, 6];
    var b1 := b0[..5] + b0[3..5] + b0[7..];
    var b2 := b1[..3] + b1[1..3] + b1[5..];
    assert ChunkedShiftUpAsWritten(b2, 1, 1, 2) == None;
    assert ChunkedShiftUpAsWritten(b1, 3, 3, 2) == None;
  }
}
