/**
 * Capacity arithmetic of Ensemble::Array: how many slots the buffer is
 * grown to when it must hold `needed` more than it currently has.
 *
 * Two candidates are computed and the smaller one is taken:
 *  - the doubling candidate: max(capacity, 1) doubled until it reaches
 *    capacity + needed;
 *  - the linear candidate: capacity plus `needed` rounded up to a
 *    multiple of the growth step (a configured step of 0 counts as 1).
 */
module Growth {

  /** The growth step actually used: a configured step below 1 counts as 1. */
  function Step(growBy: nat): (g: nat)
    ensures growBy < 1 ==> g == 1
    ensures growBy >= 1 ==> g == growBy
  {
    if growBy < 1 then 1 else growBy
  }

  /** 2 to the power k. */
  function Pow2(k: nat): nat
  {
    if k == 0 then 1 else 2 * Pow2(k - 1)
  }

  /** Doubles `size` until it is no longer below `target`. */
  function Doubling(size: nat, target: nat): (r: nat)
    requires size >= 1
    ensures r >= size && r >= target
    decreases if size < target then target - size else 0
  {
    if size < target then Doubling(2 * size, target) else size
  }

  /** How many doublings Doubling(size, target) performs. */
  function DoublingSteps(size: nat, target: nat): nat
    requires size >= 1
    decreases if size < target then target - size else 0
  {
    if size < target then 1 + DoublingSteps(2 * size, target) else 0
  }

  /**
   * Doubling stops at the FIRST doubling that reaches the target: the
   * result is size * 2^k, and when at least one doubling happened the
   * previous value was still below the target.
   */
  lemma {:induction false} DoublingIsFirstReaching(size: nat, target: nat)
    requires size >= 1
    ensures Doubling(size, target) == size * Pow2(DoublingSteps(size, target))
    ensures size >= target ==> Doubling(size, target) == size
    ensures size < target ==> Doubling(size, target) < 2 * target
    decreases if size < target then target - size else 0
  {
    if size < target {
      DoublingIsFirstReaching(2 * size, target);
      var k := DoublingSteps(2 * size, target);
      calc {
        Doubling(size, target);
        2 * size * Pow2(k);
        size * (2 * Pow2(k));
        size * Pow2(k + 1);
      }
    }
  }

  /** ceil(n / g), written as the source writes it: (g + n - 1) / g. */
  function CeilDiv(n: nat, g: nat): nat
    requires g >= 1
  {
    (g + n - 1) / g
  }

  /** g * CeilDiv(n, g) is the least multiple of g that is at least n. */
  lemma CeilDivIsLeastCoveringMultiple(n: nat, g: nat)
    requires g >= 1
    ensures n <= g * CeilDiv(n, g) < n + g
  {
    var q := (g + n - 1) / g;
    var r := (g + n - 1) % g;
    assert g * q + r == g + n - 1;
    assert 0 <= r < g;
  }

  /** First candidate: max(capacity, 1) doubled until it covers capacity + needed. */
  function DoublingCandidate(capacity: nat, needed: nat): nat
  {
    Doubling(if capacity < 1 then 1 else capacity, capacity + needed)
  }

  /** Second candidate: capacity plus `needed` rounded up to a multiple of the step. */
  function LinearCandidate(capacity: nat, growBy: nat, needed: nat): nat
  {
    capacity + Step(growBy) * CeilDiv(needed, Step(growBy))
  }

  /**
   * The new capacity chosen when `needed` more slots are wanted than the
   * `capacity` ones: unchanged when nothing is needed, otherwise the smaller
   * of the two candidates, which always covers capacity + needed.
   */
  function ExpandedSize(capacity: nat, growBy: nat, needed: nat): (r: nat)
    ensures needed == 0 ==> r == capacity
    ensures needed >= 1 ==> r >= capacity + needed
  {
    if needed < 1 then capacity
    else
      CeilDivIsLeastCoveringMultiple(needed, Step(growBy));
      var dbl := DoublingCandidate(capacity, needed);
      var lin := LinearCandidate(capacity, growBy, needed);
      if lin < dbl then lin else dbl
  }

  /**
   * The new capacity is bounded by both candidates: it exceeds what is
   * needed by less than one growth step (the linear bound), and it is less
   * than twice what is needed (the doubling bound).
   */
  lemma ExpandedSizeIsTight(capacity: nat, growBy: nat, needed: nat)
    requires needed >= 1
    ensures capacity + needed <= ExpandedSize(capacity, growBy, needed)
    ensures ExpandedSize(capacity, growBy, needed) < capacity + needed + Step(growBy)
    ensures ExpandedSize(capacity, growBy, needed) < 2 * (capacity + needed)
  {
    CeilDivIsLeastCoveringMultiple(needed, Step(growBy));
    DoublingIsFirstReaching(if capacity < 1 then 1 else capacity, capacity + needed);
  }

  /**
   * The capacity after making room for `required` live elements: unchanged
   * when it already suffices, otherwise expanded by the shortfall.
   */
  function CapacityFor(capacity: nat, growBy: nat, required: nat): (r: nat)
    ensures r >= capacity && r >= required
    ensures required <= capacity ==> r == capacity
  {
    if required > capacity then ExpandedSize(capacity, growBy, required - capacity) else capacity
  }

  /**
   * The size Array::AppendNew grows a full buffer to, capacity + step +
   * margin - (step + margin) % step, is exactly one step more when the
   * margin (count - capacity) is 0, as it is whenever the buffer is full.
   */
  lemma FullStepWhenNoMargin(capacity: nat, step: nat, margin: int)
    requires step >= 1 && margin == 0
    ensures capacity + step + margin - (step + margin) % step == capacity + step
  {
    assert (step + margin) % step == step % step == 0;
  }
}
