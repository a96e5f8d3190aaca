/**
 * The record and byte counters of both record stores (_changeNumRecords and
 * _increaseDataSize): fetchAndAdd the delta on a 64-bit atomic, and if the
 * value BEFORE the add was negative, overwrite the counter with
 * max(delta, 0).
 */
module KvCounters {
  import opened KvTypes

  /** The counter after one change by delta. */
  function AddThenReset(prev: int64, delta: int64): (r: int64)
  {
    if prev < 0 then (if delta > 0 then delta else 0) else Wrap64(prev + delta)
  }

  /**
   * A negative counter never survives the next change: the reset rule brings
   * it back to a non-negative value, whatever the delta.
   */
  lemma NegativeIsRepaired(prev: int64, delta: int64)
    ensures prev < 0 ==> AddThenReset(prev, delta) >= 0
    ensures AddThenReset(prev, delta) < 0 ==> prev >= 0
  {
  }

  /** From a non-negative value, a change that stays in range is a plain add. */
  lemma PlainAddFromNonNegative(prev: int64, delta: int64)
    requires prev >= 0 && prev + delta <= INT64_MAX
    ensures AddThenReset(prev, delta) == prev + delta
  {
  }

  /** The counter after a series of changes. */
  function ApplyAll(c: int64, ds: seq<int64>): int64
    decreases |ds|
  {
    if |ds| == 0 then c else ApplyAll(AddThenReset(c, ds[0]), ds[1..])
  }

  function Sum(ds: seq<int64>): int
    decreases |ds|
  {
    if |ds| == 0 then 0 else ds[0] + Sum(ds[1..])
  }

  /** Every running total before the last change is in [0, INT64_MAX], and so is the last. */
  predicate TotalsInRange(c: int, ds: seq<int64>)
    decreases |ds|
  {
    0 <= c <= INT64_MAX && (|ds| == 0 || TotalsInRange(c + ds[0], ds[1..]))
  }

  /**
   * As long as no running total drops below zero, the counter is the start
   * value plus the sum of the deltas: the reset rule never fires.
   */
  lemma {:induction false} CounterIsSum(c: int64, ds: seq<int64>)
    requires TotalsInRange(c, ds)
    ensures ApplyAll(c, ds) == c + Sum(ds)
    decreases |ds|
  {
    if |ds| > 0 {
      PlainAddFromNonNegative(c, ds[0]);
      CounterIsSum(c + ds[0], ds[1..]);
    }
  }

  /**
   * The reset rule forgets history. From zero, a removal and then an
   * addition of one leave the counter at 1, not at their sum 0; likewise a
   * 400-byte delete charge followed by a 50-byte insert leaves 50, not -350.
   */
  lemma ResetForgetsHistory()
    ensures ApplyAll(0, [-1, 1]) == 1 && Sum([-1, 1]) == 0
    ensures ApplyAll(0, [-400, 50]) == 50
  {
    assert ApplyAll(0, [-1, 1]) == ApplyAll(-1, [1]);
    assert ApplyAll(0, [-400, 50]) == ApplyAll(-400, [50]);
  }
}
