/**
 * The `useFormatPreference` hook: a remembered index into the date or the
 * time formats, advanced round-robin each time the label is clicked.
 */
module Preferences {
  import opened Formats

  /** How many formats the rotation for `key` has: the date formats for "dateFormat", the time formats otherwise. */
  function FormatCount(key: string): (n: nat)
    ensures n > 0
    ensures key == "dateFormat" ==> n == DateFormatCount
    ensures key != "dateFormat" ==> n == TimeFormatCount
  {
    var maxIndex := if key == "dateFormat" then DateFormatCount - 1 else TimeFormatCount - 1;
    maxIndex + 1
  }

  /** The update `cycleFormat` applies: `(prev + 1) % (maxIndex + 1)`. */
  function NextFormatIndex(prev: nat, count: nat): (r: nat)
    requires count > 0
    ensures r < count
    ensures prev + 1 < count ==> r == prev + 1
    ensures prev + 1 == count ==> r == 0
  {
    (prev + 1) % count
  }

  /** The index after `steps` clicks. */
  function CycleSteps(start: nat, count: nat, steps: nat): (r: nat)
    requires count > 0
  {
    if steps == 0 then start else NextFormatIndex(CycleSteps(start, count, steps - 1), count)
  }

  /** Euclidean division is unique: a quotient and a remainder in range are the ones `/` and `%` give. */
  lemma DivModUnique(x: int, n: int, q: int, r: int)
    requires n > 0 && 0 <= r < n && x == q * n + r
    ensures x / n == q && x % n == r
  {
    var q', r' := x / n, x % n;
    var d := q - q';
    assert d * n == r' - r by {
      assert q * n - q' * n == d * n;
    }
  }

  lemma DivModOf(x: int, n: int)
    requires n > 0
    ensures x == (x / n) * n + x % n && 0 <= x % n < n
  {
  }

  /** From an index in range, `steps` clicks move it `steps` places round the rotation. */
  lemma {:induction false} CycleStepsAdvance(start: nat, count: nat, steps: nat)
    requires count > 0 && start < count
    ensures CycleSteps(start, count, steps) == (start + steps) % count
  {
    if steps == 0 {
      DivModUnique(start, count, 0, start);
    } else {
      CycleStepsAdvance(start, count, steps - 1);
      var a := start + steps - 1;
      var q, r := a / count, a % count;
      DivModOf(a, count);
      assert CycleSteps(start, count, steps) == NextFormatIndex(r, count);
      if r + 1 < count {
        DivModUnique(a + 1, count, q, r + 1);
      } else {
        assert a + 1 == (q + 1) * count by {
          assert (q + 1) * count == q * count + count;
        }
        DivModUnique(a + 1, count, q + 1, 0);
      }
    }
  }

  /** As many clicks as there are formats bring the label back to the format it started with. */
  lemma CycleReturnsToStart(start: nat, count: nat)
    requires count > 0 && start < count
    ensures CycleSteps(start, count, count) == start
  {
    CycleStepsAdvance(start, count, count);
    DivModUnique(start + count, count, 1, start);
  }

  /** Every format is reached from every other in fewer clicks than there are formats. */
  lemma CycleReachesEveryFormat(start: nat, count: nat, target: nat)
    requires count > 0 && start < count && target < count
    ensures var steps := (target - start) % count; steps < count && CycleSteps(start, count, steps) == target
  {
    var steps := (target - start) % count;
    CycleStepsAdvance(start, count, steps);
    if start <= target {
      DivModUnique(target - start, count, 0, target - start);
      DivModUnique(start + steps, count, 0, target);
    } else {
      DivModUnique(target - start, count, -1, target - start + count);
      DivModUnique(start + steps, count, 1, target);
    }
  }

  /** The state `useFormatPreference(key, defaultIndex)` keeps for one label kind. */
  class FormatPreference {
    const key: string
    var formatIndex: nat

    ghost predicate Valid()
      reads this
    {
      formatIndex < FormatCount(key)
    }

    /** The hook's initial state: the stored index, or the default when nothing was stored. */
    constructor (key: string, initialIndex: nat)
      requires initialIndex < FormatCount(key)
      ensures Valid()
      ensures this.key == key && formatIndex == initialIndex
    {
      this.key := key;
      formatIndex := initialIndex;
    }

    /** `cycleFormat`: move to the next format of the rotation, wrapping round after the last. */
    method CycleFormat()
      requires Valid()
      modifies this
      ensures Valid()
      ensures formatIndex == NextFormatIndex(old(formatIndex), FormatCount(key))
    {
      formatIndex := NextFormatIndex(formatIndex, FormatCount(key));
    }
  }
}
